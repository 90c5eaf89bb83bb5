/** Channel membership: preferences raised by enrolment and involvement, and who is notified, under the
    three-valued logic of SQL. */
module ChatMembership {
  import opened Prelude

  type Id = nat

  datatype Preference = All | Mentions | Muted

  type Members = map<Id, Preference>

  /** What the application and the employees themselves do to one channel's memberships. */
  datatype Act =
    | Enroll(members: set<Id>)   // EnrollProjectMembersInChannel
    | Ensure(employee: Id)       // EnsureChannelMembership
    | Choose(employee: Id, preference: Preference)  // UpdateMembershipNotificationPreference

  /** INSERT ... ON CONFLICT DO NOTHING / DO UPDATE ... WHERE preference = 'mentions' / UPDATE. */
  function Perform(ms: Members, a: Act): Members {
    match a
    case Enroll(es) => map e | e in es + ms.Keys :: if e in ms then ms[e] else Mentions
    case Ensure(e) => if e !in ms || ms[e].Mentions? then ms[e := All] else ms
    case Choose(e, p) => if e in ms then ms[e := p] else ms
  }

  function Run(ms: Members, acts: seq<Act>): Members
    decreases |acts|
  {
    if acts == [] then ms else Perform(Run(ms, acts[..|acts| - 1]), acts[|acts| - 1])
  }

  // ----- The lattice -----

  /** Absent, mentions, all, muted: muted is above everything the application asks for. */
  function Rank(p: Option<Preference>): nat {
    match p
    case None => 0
    case Some(Mentions) => 1
    case Some(All) => 2
    case Some(Muted) => 3
  }

  function PreferenceOf(ms: Members, e: Id): Option<Preference> {
    if e in ms then Some(ms[e]) else None
  }

  /** What one act asks for an employee, as a rank. */
  function Asked(a: Act, e: Id): (r: nat)
    ensures r <= 2
  {
    match a
    case Enroll(es) => if e in es then 1 else 0
    case Ensure(x) => if x == e then 2 else 0
    case Choose(_, _) => 0
  }

  function MostAsked(acts: seq<Act>, e: Id): (r: nat)
    ensures r <= 2
    decreases |acts|
  {
    if acts == [] then 0 else Max(MostAsked(acts[..|acts| - 1], e), Asked(acts[|acts| - 1], e))
  }

  predicate Automatic(acts: seq<Act>) {
    forall i :: 0 <= i < |acts| ==> !acts[i].Choose?
  }

  /** However enrolments and involvements are ordered and repeated, an employee's preference is the highest
      of what it was and what was asked for; muting absorbs everything. */
  lemma {:induction false} PreferenceIsTheJoin(ms: Members, acts: seq<Act>, e: Id)
    requires Automatic(acts)
    ensures Rank(PreferenceOf(Run(ms, acts), e)) == Max(Rank(PreferenceOf(ms, e)), MostAsked(acts, e))
    decreases |acts|
  {
    if acts != [] {
      PreferenceIsTheJoin(ms, acts[..|acts| - 1], e);
    }
  }

  lemma {:induction false} RunAgain(ms: Members, a: seq<Act>, b: seq<Act>)
    ensures Run(ms, a + b) == Run(Run(ms, a), b)
    decreases |b|
  {
    if b == [] {
      assert a + b == a;
    } else {
      RunAgain(ms, a, b[..|b| - 1]);
      assert (a + b)[..|a + b| - 1] == a + b[..|b| - 1];
    }
  }

  /** An employee's own choice counts from then on, up or down, if they are a member; afterwards it is joined
      with what is asked for. */
  lemma ChoiceCountsFromThenOn(ms: Members, before: seq<Act>, e: Id, p: Preference, acts: seq<Act>)
    requires Automatic(acts) && e in Run(ms, before)
    ensures Rank(PreferenceOf(Run(ms, before + [Choose(e, p)] + acts), e)) == Max(Rank(Some(p)), MostAsked(acts, e))
  {
    RunAgain(ms, before + [Choose(e, p)], acts);
    assert (before + [Choose(e, p)])[..|before|] == before;
    PreferenceIsTheJoin(Run(ms, before + [Choose(e, p)]), acts, e);
  }

  /** A choice makes nobody a member and touches nobody else. */
  lemma ChoiceTouchesOneMember(ms: Members, e: Id, p: Preference, x: Id)
    ensures PreferenceOf(Perform(ms, Choose(e, p)), x) == if x == e && e in ms then Some(p) else PreferenceOf(ms, x)
  {
  }

  /** So the order does not matter, and doing it all again changes nothing. */
  lemma OrderAndRepetitionDoNotMatter(ms: Members, a: seq<Act>, b: seq<Act>)
    requires Automatic(a) && Automatic(b) && forall x :: x in a <==> x in b
    ensures Run(ms, a) == Run(ms, b)
  {
    forall e
      ensures PreferenceOf(Run(ms, a), e) == PreferenceOf(Run(ms, b), e)
    {
      PreferenceIsTheJoin(ms, a, e);
      PreferenceIsTheJoin(ms, b, e);
      AskedBySubset(a, b, e);
      AskedBySubset(b, a, e);
    }
    assert forall e :: e in Run(ms, a) <==> PreferenceOf(Run(ms, a), e).Some?;
    assert forall e :: e in Run(ms, b) <==> PreferenceOf(Run(ms, b), e).Some?;
  }

  lemma {:induction false} AskedBySubset(a: seq<Act>, b: seq<Act>, e: Id)
    requires forall x :: x in a ==> x in b
    ensures MostAsked(a, e) <= MostAsked(b, e)
    decreases |a|
  {
    if a != [] {
      AskedBySubset(a[..|a| - 1], b, e);
      AskedIsCovered(b, a[|a| - 1], e);
    }
  }

  lemma {:induction false} AskedIsCovered(b: seq<Act>, x: Act, e: Id)
    requires x in b
    ensures Asked(x, e) <= MostAsked(b, e)
    decreases |b|
  {
    if x != b[|b| - 1] {
      assert x in b[..|b| - 1];
      AskedIsCovered(b[..|b| - 1], x, e);
    }
  }

  // ----- Who is notified -----

  datatype Truth = True | False | Unknown

  function Equals(column: Option<Preference>, p: Preference): Truth {
    if column.None? then Unknown else if column.value == p then True else False
  }

  function Not(a: Truth): Truth {
    match a
    case True => False
    case False => True
    case Unknown => Unknown
  }

  function And(a: Truth, b: Truth): Truth {
    if a.False? || b.False? then False else if a.True? && b.True? then True else Unknown
  }

  function Or(a: Truth, b: Truth): Truth {
    if a.True? || b.True? then True else if a.False? && b.False? then False else Unknown
  }

  function IsNull(column: Option<Preference>): Truth {
    if column.None? then True else False
  }

  function Holds(b: bool): Truth {
    if b then True else False
  }

  function Certainty(t: Truth): nat {
    match t
    case False => 0
    case Unknown => 1
    case True => 2
  }

  /** SQL's logic: AND is the lesser of two truths, OR the greater, NOT turns them around; and a test on a NULL
      column is unknown, except the test for NULL. */
  lemma ThreeValuedLogic(a: Truth, b: Truth, column: Option<Preference>, p: Preference)
    ensures Certainty(And(a, b)) == Min(Certainty(a), Certainty(b))
    ensures Certainty(Or(a, b)) == Max(Certainty(a), Certainty(b))
    ensures Certainty(Not(a)) == 2 - Certainty(a)
    ensures Equals(column, p).Unknown? <==> column.None?
    ensures Equals(column, p).True? <==> column == Some(p)
    ensures IsNull(column) == if column == None then True else False
  {
  }

  /** The WHERE clause of ListChannelMembersForNotification. */
  function Where(column: Option<Preference>, mention: bool): Truth {
    And(Or(Or(Equals(column, All), And(Equals(column, Mentions), Holds(mention))), IsNull(column)),
        Not(Equals(column, Muted)))
  }

  /** A row is selected when its WHERE clause is true. The IS NULL leg can never select one: a null
      preference makes the last conjunct unknown. */
  lemma SelectedIff(column: Option<Preference>, mention: bool)
    ensures Where(column, mention).True? <==> column == Some(All) || (column == Some(Mentions) && mention)
    ensures Where(None, mention).Unknown?
  {
  }

  function Notified(ms: Members, mention: bool): set<Id> {
    set e | e in ms && Where(Some(ms[e]), mention).True?
  }

  /** Muted members are never notified; whoever was ensured into the channel and has not muted it always is;
      the merely enrolled exactly for mentions. */
  lemma NotificationFollowsInvolvement(ms: Members, acts: seq<Act>, e: Id, mention: bool)
    requires Automatic(acts)
    ensures PreferenceOf(ms, e) == Some(Muted) ==> e !in Notified(Run(ms, acts), mention)
    ensures Ensure(e) in acts && PreferenceOf(ms, e) != Some(Muted) ==> e in Notified(Run(ms, acts), mention)
    ensures PreferenceOf(ms, e).None? && Ensure(e) !in acts && (exists es :: e in es && Enroll(es) in acts) ==>
      (e in Notified(Run(ms, acts), mention) <==> mention)
  {
    PreferenceIsTheJoin(ms, acts, e);
    if Ensure(e) in acts {
      AskedIsCovered(acts, Ensure(e), e);
    } else {
      OnlyEnrolled(acts, e);
      if exists es :: e in es && Enroll(es) in acts {
        var es :| e in es && Enroll(es) in acts;
        AskedIsCovered(acts, Enroll(es), e);
      }
    }
  }

  lemma {:induction false} OnlyEnrolled(acts: seq<Act>, e: Id)
    requires Ensure(e) !in acts
    ensures MostAsked(acts, e) <= 1
    decreases |acts|
  {
    if acts != [] {
      OnlyEnrolled(acts[..|acts| - 1], e);
    }
  }

  // ----- The table updated in place -----

  class MembershipTable {
    var members: Members

    constructor ()
      ensures members == map[]
    {
      members := map[];
    }

    /** One row at a time, the project's members in any order. */
    method EnrollProjectMembersInChannel(projectMembers: seq<Id>)
      modifies this
      ensures members == Perform(old(members), Enroll(set e: Id | e in projectMembers))
    {
      var n := 0;
      while n < |projectMembers|
        invariant 0 <= n <= |projectMembers|
        invariant members == Perform(old(members), Enroll(set e: Id | e in projectMembers[..n]))
      {
        var e := projectMembers[n];
        assert projectMembers[..n + 1] == projectMembers[..n] + [e];
        if e !in members {
          members := members[e := Mentions];
        }
        n := n + 1;
      }
      assert projectMembers[..n] == projectMembers;
    }

    method EnsureChannelMembership(e: Id)
      modifies this
      ensures members == Perform(old(members), Ensure(e))
    {
      if e !in members {
        members := members[e := All];
      } else if members[e].Mentions? {
        members := members[e := All];
      }
    }

    method UpdateMembershipNotificationPreference(e: Id, p: Preference) returns (row: bool)
      modifies this
      ensures members == Perform(old(members), Choose(e, p)) && (row <==> e in old(members))
    {
      row := e in members;
      if row {
        members := members[e := p];
      }
    }
  }
}
