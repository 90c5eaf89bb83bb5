/** What reconciliation knows of an instance's evidence: the latest submission for each requirement, counted. */
module EvidenceSnapshot {
  import opened Prelude
  import opened Reconciliation

  type Key = nat

  datatype Requirement = Requirement(id: Key, required: bool)

  datatype Status = PendingReview | Approved | Rejected

  /** A submission; they are listed oldest first. */
  datatype Submission = Submission(requirement: Key, status: Status)

  /** The latest submission for a requirement. */
  function Latest(sent: seq<Submission>, r: Key): Option<Status>
    decreases |sent|
  {
    if sent == [] then None
    else if sent[|sent| - 1].requirement == r then Some(sent[|sent| - 1].status)
    else Latest(sent[..|sent| - 1], r)
  }

  /** It is the last one listed, if there is one at all. */
  lemma {:induction false} LatestIsTheLast(sent: seq<Submission>, r: Key)
    ensures Latest(sent, r).None? <==> forall s :: s in sent ==> s.requirement != r
    ensures Latest(sent, r).Some? ==> exists k ::
      && 0 <= k < |sent| && sent[k] == Submission(r, Latest(sent, r).value)
      && forall j :: k < j < |sent| ==> sent[j].requirement != r
    decreases |sent|
  {
    if sent != [] {
      var front, last := sent[..|sent| - 1], sent[|sent| - 1];
      LatestIsTheLast(front, r);
      assert forall s :: s in sent <==> s in front || s == last;
      if last.requirement == r {
        assert sent[|sent| - 1] == Submission(r, last.status);
      } else if Latest(front, r).Some? {
        var k :| 0 <= k < |front| && front[k] == Submission(r, Latest(front, r).value)
          && forall j :: k < j < |front| ==> front[j].requirement != r;
        assert sent[k] == front[k] && forall j :: k < j < |sent| ==> j < |front| ==> sent[j] == front[j];
      }
    }
  }

  function HowMany(rs: seq<Requirement>, p: Requirement -> bool): nat
    decreases |rs|
  {
    if rs == [] then 0 else HowMany(rs[..|rs| - 1], p) + if p(rs[|rs| - 1]) then 1 else 0
  }

  /** Of the requirements that satisfy q, all satisfy p exactly when the two numbers agree. */
  lemma {:induction false} AllIfAsMany(rs: seq<Requirement>, p: Requirement -> bool, q: Requirement -> bool)
    requires forall r :: p(r) ==> q(r)
    ensures HowMany(rs, p) <= HowMany(rs, q)
    ensures HowMany(rs, p) == HowMany(rs, q) <==> forall r :: r in rs && q(r) ==> p(r)
    decreases |rs|
  {
    if rs != [] {
      var front, last := rs[..|rs| - 1], rs[|rs| - 1];
      AllIfAsMany(front, p, q);
      assert forall r :: r in rs <==> r in front || r == last;
    }
  }

  lemma {:induction false} NoneIfZero(rs: seq<Requirement>, p: Requirement -> bool)
    ensures HowMany(rs, p) == 0 <==> forall r :: r in rs ==> !p(r)
    decreases |rs|
  {
    if rs != [] {
      var front, last := rs[..|rs| - 1], rs[|rs| - 1];
      NoneIfZero(front, p);
      assert forall r :: r in rs <==> r in front || r == last;
    }
  }

  function IsRequired(): Requirement -> bool { (r: Requirement) => r.required }

  function IsSent(sent: seq<Submission>): Requirement -> bool { (r: Requirement) => Latest(sent, r.id).Some? }

  function RequiredSent(sent: seq<Submission>): Requirement -> bool {
    (r: Requirement) => r.required && Latest(sent, r.id).Some?
  }

  function RequiredWith(sent: seq<Submission>, status: Status): Requirement -> bool {
    (r: Requirement) => r.required && Latest(sent, r.id) == Some(status)
  }

  function Counted(rs: seq<Requirement>, sent: seq<Submission>): Evidence {
    Evidence(HowMany(rs, IsRequired()), HowMany(rs, RequiredSent(sent)), HowMany(rs, RequiredWith(sent, Approved)),
             HowMany(rs, RequiredWith(sent, Rejected)), HowMany(rs, IsSent(sent)))
  }

  lemma OneOfThree(s: Status)
    ensures s == PendingReview || s == Approved || s == Rejected
  {
    match s {
      case PendingReview =>
      case Approved =>
      case Rejected =>
    }
  }

  /** The counts say what they are for: everything is approved exactly when the latest submission for every
      required requirement is; the reviewer owes the next move exactly when something is required and for all
      of it the latest submission is there and not rejected; and work has begun exactly when anything is in. */
  lemma CountsMean(rs: seq<Requirement>, sent: seq<Submission>)
    ensures AllRequiredApproved(Counted(rs, sent)) <==>
      forall r :: r in rs && r.required ==> Latest(sent, r.id) == Some(Approved)
    ensures AwaitsReviewer(Counted(rs, sent)) <==>
      && (exists r :: r in rs && r.required)
      && forall r :: r in rs && r.required ==> Latest(sent, r.id) in {Some(PendingReview), Some(Approved)}
    ensures AnySubmitted(Counted(rs, sent)) <==> exists r :: r in rs && Latest(sent, r.id).Some?
  {
    AllIfAsMany(rs, RequiredWith(sent, Approved), IsRequired());
    AllIfAsMany(rs, RequiredSent(sent), IsRequired());
    NoneIfZero(rs, IsRequired());
    NoneIfZero(rs, RequiredWith(sent, Rejected));
    NoneIfZero(rs, IsSent(sent));
    var e := Counted(rs, sent);
    forall r: Key
      ensures Latest(sent, r) in {Some(PendingReview), Some(Approved)} <==>
        Latest(sent, r).Some? && Latest(sent, r) != Some(Rejected)
    {
      if Latest(sent, r).Some? {
        OneOfThree(Latest(sent, r).value);
      }
    }
    assert e.required == 0 <==> forall r :: r in rs ==> !IsRequired()(r);
    assert e.requiredSubmitted == e.required <==>
      forall r :: r in rs && r.required ==> Latest(sent, r.id).Some? by {
      assert forall r :: IsRequired()(r) <==> r.required;
      assert forall r :: RequiredSent(sent)(r) <==> r.required && Latest(sent, r.id).Some?;
    }
    assert e.requiredRejected == 0 <==>
      forall r :: r in rs && r.required ==> Latest(sent, r.id) != Some(Rejected) by {
      assert forall r :: RequiredWith(sent, Rejected)(r) <==> r.required && Latest(sent, r.id) == Some(Rejected);
    }
  }

  /** The map the loop over the submissions fills. */
  ghost predicate HoldsLatest(latest: map<Key, Status>, sent: seq<Submission>) {
    forall r :: Latest(sent, r) == if r in latest then Some(latest[r]) else None
  }

  /** loadTaskEvidenceSnapshot; without a definition there is nothing to load. */
  method LoadTaskEvidenceSnapshot(defined: bool, rs: seq<Requirement>, sent: seq<Submission>) returns (e: Evidence)
    ensures e == if defined then Counted(rs, sent) else NoDefinition
  {
    if !defined {
      return NoDefinition;
    }
    var latest: map<Key, Status> := map[];
    var n := 0;
    while n < |sent|
      invariant 0 <= n <= |sent| && HoldsLatest(latest, sent[..n])
    {
      assert sent[..n + 1][..n] == sent[..n];
      latest := latest[sent[n].requirement := sent[n].status];
      n := n + 1;
    }
    assert sent[..n] == sent;
    e := Evidence(0, 0, 0, 0, 0);
    n := 0;
    while n < |rs|
      invariant 0 <= n <= |rs| && e == Counted(rs[..n], sent)
    {
      var r := rs[n];
      assert rs[..n + 1][..n] == rs[..n];
      assert Latest(sent, r.id) == if r.id in latest then Some(latest[r.id]) else None;
      if r.required {
        e := e.(required := e.required + 1);
      }
      if r.id in latest {
        e := e.(submitted := e.submitted + 1);
        if r.required {
          e := e.(requiredSubmitted := e.requiredSubmitted + 1);
        }
        match latest[r.id] {
          case Approved =>
            if r.required { e := e.(requiredApproved := e.requiredApproved + 1); }
          case Rejected =>
            if r.required { e := e.(requiredRejected := e.requiredRejected + 1); }
          case PendingReview =>
        }
      }
      n := n + 1;
    }
    assert rs[..n] == rs;
  }
}
