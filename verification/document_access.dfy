/** Who may see a document: the five-step precedence of CheckAccess, and the one COALESCE expression
    that search and previews use for it. */
module DocumentAccess {
  import opened Prelude

  type Id = nat

  datatype Level = WriteUpdate | ReadComment | NoAccess

  datatype Grantee = Employee(id: Id) | Department(id: Id)

  /** A document with its document_access rows; SetDocumentAccess upserts, so a grantee has one. */
  datatype Document = Document(owner: Id, isPublic: bool, grants: map<Grantee, Level>)

  // ----- The rule, stated without any order of rows -----

  predicate GrantedThrough(d: Document, depts: set<Id>, level: Level) {
    exists x :: x in depts && Department(x) in d.grants && d.grants[Department(x)] == level
  }

  predicate AnyDepartmentGrant(d: Document, depts: set<Id>) {
    exists x :: x in depts && Department(x) in d.grants
  }

  /** Owner; else the employee's own grant, a `none` included; else the best grant of the employee's
      departments; else visibility; else nothing. */
  function Effective(d: Document, e: Id, depts: set<Id>): Level {
    if d.owner == e then WriteUpdate
    else if Employee(e) in d.grants then d.grants[Employee(e)]
    else if GrantedThrough(d, depts, WriteUpdate) then WriteUpdate
    else if GrantedThrough(d, depts, ReadComment) then ReadComment
    else if AnyDepartmentGrant(d, depts) then NoAccess
    else if d.isPublic then WriteUpdate
    else NoAccess
  }

  /** What the departments of somebody without a grant of their own decide: no less than any of them grants,
      and what one of them grants. Without such grants, visibility decides. */
  lemma DepartmentsGiveTheirBest(d: Document, e: Id, depts: set<Id>)
    requires d.owner != e && Employee(e) !in d.grants
    ensures forall x :: x in depts && Department(x) in d.grants ==>
      Weight(d.grants[Department(x)]) <= Weight(Effective(d, e, depts))
    ensures (exists x :: x in depts && Department(x) in d.grants) ==>
      exists x :: x in depts && Department(x) in d.grants && d.grants[Department(x)] == Effective(d, e, depts)
    ensures (forall x :: x in depts ==> Department(x) !in d.grants) ==>
      Effective(d, e, depts) == if d.isPublic then WriteUpdate else NoAccess
  {
    forall x | x in depts && Department(x) in d.grants
      ensures Weight(d.grants[Department(x)]) <= Weight(Effective(d, e, depts))
    {
      assert GrantedThrough(d, depts, d.grants[Department(x)]);
      assert AnyDepartmentGrant(d, depts);
    }
    if x :| x in depts && Department(x) in d.grants {
      assert AnyDepartmentGrant(d, depts);
      if Effective(d, e, depts) == NoAccess {
        assert d.grants[Department(x)] == NoAccess;
      } else {
        assert GrantedThrough(d, depts, Effective(d, e, depts));
      }
    }
  }

  /** The owner has everything, and a grant of one's own, `none` included, comes before all others. */
  lemma OwnerThenOwnGrant(d: Document, e: Id, depts: set<Id>)
    ensures d.owner == e ==> Effective(d, e, depts) == WriteUpdate
    ensures d.owner != e && Employee(e) in d.grants ==> Effective(d, e, depts) == d.grants[Employee(e)]
  {
  }

  // ----- The expression in SearchDocuments and ListDocumentPreviews -----

  function Weight(l: Level): nat {
    match l
    case WriteUpdate => 2
    case ReadComment => 1
    case NoAccess => 0
  }

  /** The rows of the department sub-select in some order. */
  ghost predicate DepartmentRows(d: Document, depts: set<Id>, rows: seq<Level>) {
    && (forall l :: l in rows ==> GrantedThrough(d, depts, l))
    && (forall l :: GrantedThrough(d, depts, l) ==> l in rows)
  }

  /** ORDER BY weight DESC LIMIT 1 over them: any row of the greatest weight, or NULL. */
  ghost predicate TopRow(rows: seq<Level>, top: Option<Level>) {
    match top
    case None => rows == []
    case Some(l) => l in rows && forall x :: x in rows ==> Weight(x) <= Weight(l)
  }

  /** There always is one. */
  lemma {:induction false} SomeTopRow(rows: seq<Level>) returns (top: Option<Level>)
    ensures TopRow(rows, top)
  {
    if rows == [] {
      return None;
    }
    top := SomeTopRow(rows[1..]);
    if top.None? || Weight(rows[0]) >= Weight(top.value) {
      top := Some(rows[0]);
    }
  }

  function Coalesce(a: Option<Level>, b: Option<Level>, c: Level): Level {
    if a.Some? then a.value else if b.Some? then b.value else c
  }

  function OwnGrant(d: Document, e: Id): Option<Level> {
    if Employee(e) in d.grants then Some(d.grants[Employee(e)]) else None
  }

  /** owner = $e OR COALESCE(own grant, top department grant, visibility) <> 'none'. */
  predicate Matches(d: Document, e: Id, top: Option<Level>) {
    d.owner == e || Coalesce(OwnGrant(d, e), top, if d.isPublic then WriteUpdate else NoAccess) != NoAccess
  }

  /** Whatever order the rows come in and whichever of equal rows LIMIT keeps, the expression holds exactly
      when the rule gives some access. */
  lemma ExpressionIsTheRule(d: Document, e: Id, depts: set<Id>, rows: seq<Level>, top: Option<Level>)
    requires DepartmentRows(d, depts, rows) && TopRow(rows, top)
    ensures Matches(d, e, top) <==> Effective(d, e, depts) != NoAccess
  {
    if top.Some? {
      assert GrantedThrough(d, depts, top.value);
    } else {
      NoRowsNoGrants(d, depts, rows);
    }
  }

  /** The tempting form. */
  predicate OrChain(d: Document, e: Id, depts: set<Id>) {
    || d.owner == e
    || (Employee(e) in d.grants && d.grants[Employee(e)] != NoAccess)
    || GrantedThrough(d, depts, WriteUpdate) || GrantedThrough(d, depts, ReadComment)
    || d.isPublic
  }

  /** Somebody said no, and something further down the list says yes. */
  predicate DenialOverrides(d: Document, e: Id, depts: set<Id>) {
    var inherited := GrantedThrough(d, depts, WriteUpdate) || GrantedThrough(d, depts, ReadComment);
    d.owner != e && (
      if Employee(e) in d.grants then d.grants[Employee(e)] == NoAccess && (inherited || d.isPublic)
      else AnyDepartmentGrant(d, depts) && !inherited && d.isPublic)
  }

  /** An OR-chain never hides what the rule shows, and shows what the rule hides exactly when a denial
      overrides a grant or the visibility. */
  lemma OrChainLosesExactlyTheDenials(d: Document, e: Id, depts: set<Id>)
    ensures Effective(d, e, depts) != NoAccess ==> OrChain(d, e, depts)
    ensures OrChain(d, e, depts) && Effective(d, e, depts) == NoAccess <==> DenialOverrides(d, e, depts)
  {
    if OrChain(d, e, depts) && Effective(d, e, depts) == NoAccess {
      assert d.owner != e;
    }
  }

  // ----- CheckAccess -----

  datatype Answer = Access(level: Level, isOwner: bool) | NotFound | Failed

  /** Which of the queries fail. */
  datatype Faults = Faults(document: bool, ownGrant: bool, departments: bool)

  /** The steps of CheckAccess and the loop over the department levels. A failing document or own-grant
      query is an error; when the department query fails its error is dropped and the document's
      visibility decides. */
  method CheckAccess(found: Option<Document>, e: Id, depts: set<Id>, rows: seq<Level>, f: Faults)
    returns (answer: Answer)
    requires found.Some? ==> DepartmentRows(found.value, depts, rows)
    ensures answer.Failed? <==> f.document || (found.Some? && found.value.owner != e && f.ownGrant)
    ensures answer.NotFound? <==> !f.document && found.None?
    ensures answer.Access? ==> answer.isOwner == (found.value.owner == e)
    ensures answer.Access? ==> answer.level == Effective(found.value, e, if f.departments then {} else depts)
  {
    if f.document {
      return Failed;
    }
    if found.None? {
      return NotFound;
    }
    var d := found.value;
    if d.owner == e {
      return Access(WriteUpdate, true);
    }
    if f.ownGrant {
      return Failed;
    }
    if Employee(e) in d.grants {
      return Access(d.grants[Employee(e)], false);
    }
    if !f.departments && |rows| > 0 {
      var highest := NoAccess;
      var n := 0;
      while n < |rows|
        invariant 0 <= n <= |rows|
        invariant forall k :: 0 <= k < n ==> Weight(rows[k]) <= Weight(highest)
        invariant highest.NoAccess? || highest in rows
      {
        if Weight(rows[n]) > Weight(highest) {
          highest := rows[n];
        }
        n := n + 1;
      }
      HighestIsEffective(d, e, depts, rows, highest);
      return Access(highest, false);
    }
    if !f.departments { NoRowsNoGrants(d, depts, rows); }
    if d.isPublic {
      return Access(WriteUpdate, false);
    }
    return Access(NoAccess, false);
  }

  lemma NoRowsNoGrants(d: Document, depts: set<Id>, rows: seq<Level>)
    requires DepartmentRows(d, depts, rows) && |rows| == 0
    ensures !AnyDepartmentGrant(d, depts)
    ensures forall l :: !GrantedThrough(d, depts, l)
  {
    if AnyDepartmentGrant(d, depts) {
      var x :| x in depts && Department(x) in d.grants;
      assert GrantedThrough(d, depts, d.grants[Department(x)]);
    }
  }

  lemma HighestIsEffective(d: Document, e: Id, depts: set<Id>, rows: seq<Level>, highest: Level)
    requires DepartmentRows(d, depts, rows) && |rows| > 0 && d.owner != e && Employee(e) !in d.grants
    requires forall k :: 0 <= k < |rows| ==> Weight(rows[k]) <= Weight(highest)
    requires highest.NoAccess? || highest in rows
    ensures highest == Effective(d, e, depts)
  {
    assert GrantedThrough(d, depts, rows[0]);
    assert forall l :: l in rows ==> Weight(l) <= Weight(highest);
  }

  /** Dropping the error of the department query changes the answer exactly for somebody who neither owns
      the document nor has a grant of their own, when the document is public and their departments hold
      grants but none to write, or is private and their departments may read or write. */
  lemma DroppedErrorChangesTheAnswerIff(d: Document, e: Id, depts: set<Id>)
    ensures Effective(d, e, {}) != Effective(d, e, depts) <==>
      && d.owner != e && Employee(e) !in d.grants
      && if d.isPublic then AnyDepartmentGrant(d, depts) && !GrantedThrough(d, depts, WriteUpdate)
         else GrantedThrough(d, depts, WriteUpdate) || GrantedThrough(d, depts, ReadComment)
  {
    assert !AnyDepartmentGrant(d, {});
    assert forall l :: !GrantedThrough(d, {}, l);
    if GrantedThrough(d, depts, WriteUpdate) || GrantedThrough(d, depts, ReadComment) {
      assert AnyDepartmentGrant(d, depts);
    }
  }

  // ----- Granting and revoking -----

  /** SetDocumentAccess is an upsert on the grantee, RemoveDocumentAccess a delete. */
  datatype Act = Set(to: Grantee, level: Level) | Remove(to: Grantee)

  function Perform(grants: map<Grantee, Level>, a: Act): map<Grantee, Level> {
    match a
    case Set(to, level) => grants[to := level]
    case Remove(to) => grants - {to}
  }

  function After(grants: map<Grantee, Level>, acts: seq<Act>): map<Grantee, Level>
    decreases |acts|
  {
    if acts == [] then grants else Perform(After(grants, acts[..|acts| - 1]), acts[|acts| - 1])
  }

  /** The last act about a grantee. */
  function LastAbout(acts: seq<Act>, g: Grantee): Option<Act>
    decreases |acts|
  {
    if acts == [] then None
    else if acts[|acts| - 1].to == g then Some(acts[|acts| - 1])
    else LastAbout(acts[..|acts| - 1], g)
  }

  function GrantOf(grants: map<Grantee, Level>, g: Grantee): Option<Level> {
    if g in grants then Some(grants[g]) else None
  }

  /** A grant is what the last act about the grantee says, whatever came before and around it. */
  lemma {:induction false} LastActDecides(grants: map<Grantee, Level>, acts: seq<Act>, g: Grantee)
    ensures GrantOf(After(grants, acts), g) ==
      match LastAbout(acts, g)
      case None => GrantOf(grants, g)
      case Some(Set(_, level)) => Some(level)
      case Some(Remove(_)) => None
    decreases |acts|
  {
    if acts != [] {
      LastActDecides(grants, acts[..|acts| - 1], g);
    }
  }

  /** Two histories with the same last act about every grantee give everybody the same access. */
  lemma OrderOfGrantingDoesNotMatter(d: Document, a: seq<Act>, b: seq<Act>, e: Id, depts: set<Id>)
    requires forall g :: LastAbout(a, g) == LastAbout(b, g)
    ensures Effective(d.(grants := After(d.grants, a)), e, depts)
         == Effective(d.(grants := After(d.grants, b)), e, depts)
  {
    var x, y := After(d.grants, a), After(d.grants, b);
    forall g
      ensures GrantOf(x, g) == GrantOf(y, g)
    {
      LastActDecides(d.grants, a, g);
      LastActDecides(d.grants, b, g);
    }
    assert forall g :: g in x <==> GrantOf(x, g).Some?;
    assert forall g :: g in y <==> GrantOf(y, g).Some?;
    assert x == y by {
      forall g | g in x
        ensures g in y && x[g] == y[g]
      {
        assert GrantOf(x, g) == GrantOf(y, g);
      }
    }
  }

  /** After any history, an employee who does not own the document is shut out by their own grants alone
      exactly when the last act about them set `none`; then nothing granted to anybody else, nor the
      visibility, lets them in. */
  lemma LastDenialDenies(d: Document, acts: seq<Act>, e: Id)
    requires d.owner != e && LastAbout(acts, Employee(e)).Some?
    ensures (forall depts: set<Id>, isPublic: bool, others: map<Grantee, Level> ::
        Employee(e) !in others ==>
          Effective(Document(d.owner, isPublic, After(d.grants, acts) + others), e, depts) == NoAccess)
      <==> LastAbout(acts, Employee(e)) == Some(Set(Employee(e), NoAccess))
  {
    LastActDecides(d.grants, acts, Employee(e));
    LastAboutIsAbout(acts, Employee(e));
    var grants := After(d.grants, acts);
    if LastAbout(acts, Employee(e)) != Some(Set(Employee(e), NoAccess)) {
      var open := Document(d.owner, true, grants + map[]);
      assert grants + map[] == grants;
      if Employee(e) !in grants {
        assert !AnyDepartmentGrant(open, {}) && (forall l :: !GrantedThrough(open, {}, l));
        assert Effective(open, e, {}) == WriteUpdate;
      } else {
        assert Effective(open, e, {}) == grants[Employee(e)];
      }
      assert Effective(open, e, {}) != NoAccess;
    }
  }

  lemma {:induction false} LastAboutIsAbout(acts: seq<Act>, g: Grantee)
    ensures LastAbout(acts, g).Some? ==> LastAbout(acts, g).value.to == g && LastAbout(acts, g).value in acts
    decreases |acts|
  {
    if acts != [] && acts[|acts| - 1].to != g {
      LastAboutIsAbout(acts[..|acts| - 1], g);
    }
  }

  /** document_access rows of one document, updated in place. */
  class AccessTable {
    var grants: map<Grantee, Level>
    ghost var acts: seq<Act>

    ghost predicate Valid()
      reads this
    {
      grants == After(map[], acts)
    }

    constructor ()
      ensures Valid() && acts == []
    {
      grants, acts := map[], [];
    }

    method SetDocumentAccess(to: Grantee, level: Level)
      requires Valid()
      modifies this
      ensures Valid() && acts == old(acts) + [Set(to, level)]
    {
      assert (acts + [Set(to, level)])[..|acts|] == acts;
      grants, acts := grants[to := level], acts + [Set(to, level)];
    }

    method RemoveDocumentAccess(to: Grantee)
      requires Valid()
      modifies this
      ensures Valid() && acts == old(acts) + [Remove(to)]
    {
      assert (acts + [Remove(to)])[..|acts|] == acts;
      grants, acts := grants - {to}, acts + [Remove(to)];
    }
  }
}
