/** The evidence review queue: its rows and its count, paged by keyset while reviewers decide and
    instances change state. */
module ReviewQueue {
  import opened Prelude
  import opened Lexicographic
  import opened KeysetPaging
  import CompareAndSet

  type Id = nat

  datatype Status = PendingReview | Approved | Rejected | AutoApproved

  datatype Submission = Submission(task: Id, submitter: Id, serverTimestamp: int, status: Status)
  datatype Task = Task(project: Id, state: Id, ritual: bool, deleted: bool, detached: bool)
  datatype Seat = Seat(project: Id, employee: Id)
  datatype Role = Owner | Admin | Contributor | Viewer

  /** The rows the queue joins, of one organization. A state is late when its category is overdue or
      missed; one membership row per project and employee. */
  datatype Tables = Tables(
    submissions: map<Id, Submission>, tasks: map<Id, Task>, projects: set<Id>,
    lateStates: map<Id, bool>, memberships: map<Seat, Role>, employees: set<Id>)

  /** Who asks, and for which project if any. */
  datatype Scope = Scope(reviewer: Id, project: Option<Id>)

  /** The WHERE clause the two queries share, over the joins they share. */
  predicate Counted(db: Tables, q: Scope, id: Id) {
    && id in db.submissions && db.submissions[id].status.PendingReview?
    && db.submissions[id].task in db.tasks
    && var t := db.tasks[db.submissions[id].task];
    && t.ritual && !t.deleted && !t.detached
    && Seat(t.project, q.reviewer) in db.memberships && !db.memberships[Seat(t.project, q.reviewer)].Viewer?
    && (q.project.Some? ==> t.project == q.project.value)
  }

  /** The inner joins that only the row query makes. */
  predicate Joined(db: Tables, id: Id)
    requires id in db.submissions && db.submissions[id].task in db.tasks
  {
    var s := db.submissions[id];
    db.tasks[s.task].project in db.projects && db.tasks[s.task].state in db.lateStates && s.submitter in db.employees
  }

  predicate Listed(db: Tables, q: Scope, id: Id) {
    Counted(db, q, id) && Joined(db, id)
  }

  /** (urgency_rank, server_timestamp, id). */
  function SortKey(db: Tables, id: Id): Key
    requires id in db.submissions && db.submissions[id].task in db.tasks && Joined(db, id)
  {
    var s := db.submissions[id];
    [if db.lateStates[db.tasks[s.task].state] then 0 else 1, s.serverTimestamp, id]
  }

  /** The keys of the queue, the CTE of ListEvidenceReviewQueue. */
  ghost function Queue(db: Tables, q: Scope): set<Key> {
    set id | id in db.submissions && Listed(db, q, id) :: SortKey(db, id)
  }

  // ----- What is in the queue -----

  /** The shared clause read as FROM, JOIN and WHERE over rows: a submission awaiting review, of a ritual
      instance that still counts, in a project of which the reviewer is a member other than a viewer, and in
      which they asked. */
  lemma CountedIsTheJoin(db: Tables, q: Scope, id: Id)
    ensures Counted(db, q, id) <==> exists s, t, role ::
      && (id, s) in db.submissions.Items && (s.task, t) in db.tasks.Items
      && (Seat(t.project, q.reviewer), role) in db.memberships.Items
      && s.status == PendingReview && (t.ritual, t.deleted, t.detached) == (true, false, false)
      && role in {Owner, Admin, Contributor} && q.project in {None, Some(t.project)}
  {
    if Counted(db, q, id) {
      var s := db.submissions[id];
      var t := db.tasks[s.task];
      var role := db.memberships[Seat(t.project, q.reviewer)];
      assert (id, s) in db.submissions.Items && (s.task, t) in db.tasks.Items;
      assert (Seat(t.project, q.reviewer), role) in db.memberships.Items;
      assert role == Owner || role == Admin || role == Contributor by {
        match role {
          case Owner => case Admin => case Contributor => case Viewer =>
        }
      }
    }
  }

  /** The rows the row query adds to the join: the project, the state and the submitter. */
  lemma ListedIsTheJoin(db: Tables, q: Scope, id: Id)
    ensures Listed(db, q, id) <==> Counted(db, q, id) && exists s, t, late ::
      && (id, s) in db.submissions.Items && (s.task, t) in db.tasks.Items
      && t.project in db.projects && (t.state, late) in db.lateStates.Items && s.submitter in db.employees
  {
    if Listed(db, q, id) {
      var s := db.submissions[id];
      var t := db.tasks[s.task];
      var late := db.lateStates[t.state];
      assert (id, s) in db.submissions.Items && (s.task, t) in db.tasks.Items && (t.state, late) in db.lateStates.Items;
    }
  }

  /** A decision takes its submission off every reviewer's queue and count, and nothing else. */
  lemma DecisionTakesItOff(db: Tables, q: Scope, id: Id, status: Status)
    requires id in db.submissions && status != PendingReview
    ensures var after := db.(submissions := db.submissions[id := db.submissions[id].(status := status)]);
      ListedIds(after, q) == ListedIds(db, q) - {id} && CountedIds(after, q) == CountedIds(db, q) - {id}
  {
    var after := db.(submissions := db.submissions[id := db.submissions[id].(status := status)]);
    forall x
      ensures Counted(after, q, x) <==> Counted(db, q, x) && x != id
      ensures Listed(after, q, x) <==> Listed(db, q, x) && x != id
    {
    }
  }

  /** Asking about one project shows the part of the whole queue that is its. */
  lemma ProjectQueueIsAPart(db: Tables, reviewer: Id, project: Id, id: Id)
    ensures Listed(db, Scope(reviewer, Some(project)), id) <==>
      Listed(db, Scope(reviewer, None), id) && db.tasks[db.submissions[id].task].project == project
  {
  }

  /** Late instances first, then the oldest submissions. */
  lemma LateFirstThenOldest(db: Tables, a: Id, b: Id, q: Scope)
    requires Listed(db, q, a) && Listed(db, q, b)
    ensures Less(SortKey(db, a), SortKey(db, b)) <==>
      var s, t := db.submissions[a], db.submissions[b];
      var lateA, lateB := db.lateStates[db.tasks[s.task].state], db.lateStates[db.tasks[t.task].state];
      || (lateA && !lateB)
      || (lateA == lateB && s.serverTimestamp < t.serverTimestamp)
      || (lateA == lateB && s.serverTimestamp == t.serverTimestamp && a < b)
  {
    LessOfThree(SortKey(db, a), SortKey(db, b));
  }

  // ----- The count -----

  ghost function CountedIds(db: Tables, q: Scope): set<Id> {
    set id | id in db.submissions && Counted(db, q, id)
  }

  /** CountEvidenceReviewQueue: LIMIT inside, COUNT outside. */
  ghost function CountQuery(db: Tables, q: Scope, cap: nat): nat {
    Min(cap, |CountedIds(db, q)|)
  }

  ghost function ListedIds(db: Tables, q: Scope): set<Id> {
    set id | id in db.submissions && Listed(db, q, id)
  }

  function KeysOf(db: Tables, q: Scope, ids: set<Id>): set<Key> {
    set id | id in ids && Listed(db, q, id) :: SortKey(db, id)
  }

  lemma {:induction false} KeysAreOneToOne(db: Tables, q: Scope, ids: set<Id>)
    requires forall id :: id in ids ==> Listed(db, q, id)
    ensures |KeysOf(db, q, ids)| == |ids|
    decreases |ids|
  {
    if ids == {} {
      assert KeysOf(db, q, ids) == {};
    } else {
      var x :| x in ids;
      KeysAreOneToOne(db, q, ids - {x});
      assert forall id :: id in ids ==> SortKey(db, id)[2] == id;
      assert KeysOf(db, q, ids) == KeysOf(db, q, ids - {x}) + {SortKey(db, x)};
    }
  }

  lemma QueueSize(db: Tables, q: Scope)
    ensures |Queue(db, q)| == |ListedIds(db, q)|
  {
    KeysAreOneToOne(db, q, ListedIds(db, q));
    assert Queue(db, q) == KeysOf(db, q, ListedIds(db, q));
  }

  /** The predicate is not identical: the row query joins three more tables. The count is the number of
      rows, up to the cap, for every cap if and only if no counted submission lacks its project, its state
      or its submitter, which the foreign keys rule out. */
  lemma CountAgreesIffJoined(db: Tables, q: Scope)
    ensures (forall cap: nat :: CountQuery(db, q, cap) == Min(cap, |Queue(db, q)|))
       <==> (forall id :: Counted(db, q, id) ==> Joined(db, id))
  {
    QueueSize(db, q);
    SubsetSize(ListedIds(db, q), CountedIds(db, q));
    assert ListedIds(db, q) == CountedIds(db, q) <==> forall id :: Counted(db, q, id) ==> Joined(db, id) by {
      if ListedIds(db, q) == CountedIds(db, q) {
        assert forall id :: Counted(db, q, id) ==> id in ListedIds(db, q);
      }
    }
    assert CountQuery(db, q, |CountedIds(db, q)|) == |CountedIds(db, q)|;
  }

  const COUNT_CAP := 100

  /** GetEvidenceReviewQueueCount with sound foreign keys: the badge is exact below the cap, and is_capped
      says that there are at least a hundred. */
  lemma BadgeIsExactBelowTheCap(db: Tables, q: Scope)
    requires forall id :: Counted(db, q, id) ==> Joined(db, id)
    ensures CountQuery(db, q, COUNT_CAP) == |Queue(db, q)| <==> |Queue(db, q)| <= COUNT_CAP
    ensures CountQuery(db, q, COUNT_CAP) >= COUNT_CAP <==> |Queue(db, q)| >= COUNT_CAP
  {
    CountAgreesIffJoined(db, q);
    assert CountQuery(db, q, COUNT_CAP) == Min(COUNT_CAP, |Queue(db, q)|);
  }

  // ----- A page -----

  const DEFAULT_PAGE_SIZE := 25
  const MAX_PAGE_SIZE := 100

  function PageSize(requested: int): (size: nat)
    ensures 1 <= size <= MAX_PAGE_SIZE
    ensures 1 <= requested <= 100 ==> size == requested
    ensures requested <= 0 ==> size == 25
    ensures requested > 100 ==> size == 100
  {
    if requested <= 0 then DEFAULT_PAGE_SIZE else if requested > MAX_PAGE_SIZE then MAX_PAGE_SIZE else requested
  }

  datatype Response = Response(entries: seq<Key>, next: Option<Key>)

  /** ListEvidenceReviewQueue: one row more than the page is fetched, and only tells that there is more. */
  ghost function Fetch(db: Tables, q: Scope, cursor: Option<Key>, requested: int): Response {
    var size := PageSize(requested);
    var rows := Page(Queue(db, q), cursor, size + 1);
    if |rows| > size then Response(rows[..size], Some(rows[size - 1])) else Response(rows, None)
  }

  /** The extra row changes nothing about the page, and a cursor is given exactly when something follows. */
  lemma FetchIsAPage(db: Tables, q: Scope, cursor: Option<Key>, requested: int)
    ensures var r := Fetch(db, q, cursor, requested);
      && r.entries == Page(Queue(db, q), cursor, PageSize(requested))
      && (r.next.Some? <==> |Beyond(Queue(db, q), cursor)| > PageSize(requested))
      && (r.next.Some? ==> r.entries != [] && r.next.value == Last(r.entries))
  {
    OneRowMore(Queue(db, q), cursor, PageSize(requested));
  }

  /** A reviewer pages until no cursor comes back; `dbs[i]` is what page i saw. */
  ghost predicate Paging(dbs: seq<Tables>, q: Scope, cursor: Option<Key>, requested: int, pages: seq<seq<Key>>) {
    && |dbs| == |pages| > 0
    && var r := Fetch(dbs[0], q, cursor, requested);
    && pages[0] == r.entries
    && if r.next.None? then |pages| == 1 else |pages| > 1 && Paging(dbs[1..], q, r.next, requested, pages[1..])
  }

  ghost function Snapshots(dbs: seq<Tables>, q: Scope): seq<set<Key>> {
    seq(|dbs|, i requires 0 <= i < |dbs| => Queue(dbs[i], q))
  }

  lemma PagingUnfolds(dbs: seq<Tables>, q: Scope, cursor: Option<Key>, requested: int, pages: seq<seq<Key>>)
    requires Paging(dbs, q, cursor, requested, pages)
    ensures var (S, size) := (Queue(dbs[0], q), PageSize(requested));
      && pages[0] == Page(S, cursor, size)
      && (|pages| == 1 ==> |Beyond(S, cursor)| <= size)
      && (|pages| > 1 ==> pages[0] != [] && Paging(dbs[1..], q, Some(Last(pages[0])), requested, pages[1..]))
  {
    FetchIsAPage(dbs[0], q, cursor, requested);
  }

  lemma SnapshotsSplit(dbs: seq<Tables>, q: Scope)
    requires dbs != []
    ensures Snapshots(dbs, q) == [Queue(dbs[0], q)] + Snapshots(dbs[1..], q)
    ensures |dbs| == 1 ==> Snapshots(dbs, q) == [Queue(dbs[0], q)]
  {
  }

  lemma {:induction false} PagingIsAFullWalk(dbs: seq<Tables>, q: Scope, cursor: Option<Key>, requested: int,
      pages: seq<seq<Key>>)
    requires Paging(dbs, q, cursor, requested, pages)
    ensures FullWalk(Snapshots(dbs, q), pages, cursor, PageSize(requested))
    decreases |pages|
  {
    PagingUnfolds(dbs, q, cursor, requested, pages);
    SnapshotsSplit(dbs, q);
    if |pages| == 1 {
      FullWalkOfOne(Queue(dbs[0], q), pages, cursor, PageSize(requested));
    } else {
      PagingIsAFullWalk(dbs[1..], q, Some(Last(pages[0])), requested, pages[1..]);
      FullWalkGrows(Queue(dbs[0], q), Snapshots(dbs[1..], q), pages, cursor, PageSize(requested));
    }
  }

  lemma ListedIsInTheQueue(db: Tables, q: Scope, id: Id)
    requires Listed(db, q, id)
    ensures SortKey(db, id) in Queue(db, q)
  {
  }

  /** The submission is listed in every table state, under the same key. */
  ghost predicate Lasting(dbs: seq<Tables>, q: Scope, id: Id, k: Key) {
    forall i :: 0 <= i < |dbs| ==> Listed(dbs[i], q, id) && SortKey(dbs[i], id) == k
  }

  lemma LastingIsInEvery(dbs: seq<Tables>, q: Scope, id: Id, k: Key)
    requires Lasting(dbs, q, id, k)
    ensures InEvery(k, Snapshots(dbs, q))
  {
    forall i | 0 <= i < |dbs|
      ensures k in Snapshots(dbs, q)[i]
    {
      ListedIsInTheQueue(dbs[i], q, id);
    }
  }

  /** Whatever was decided, submitted or rescheduled between the pages: the reviewer sees keys in strictly
      increasing order, so none twice, and sees every submission that stays listed with the same urgency. */
  lemma PagingSeesEveryLastingSubmissionOnce(dbs: seq<Tables>, q: Scope, requested: int, pages: seq<seq<Key>>,
      id: Id, k: Key)
    requires Paging(dbs, q, None, requested, pages)
    ensures Sorted(Flatten(pages))
    ensures Lasting(dbs, q, id, k) ==> multiset(Flatten(pages))[k] == 1
  {
    PagingIsAFullWalk(dbs, q, None, requested, pages);
    WalkIsExact(Snapshots(dbs, q), pages, None, PageSize(requested));
    if Lasting(dbs, q, id, k) {
      LastingIsInEvery(dbs, q, id, k);
      assert IsAfter(k, None);
      SortedHoldsEachOnce(Flatten(pages), k);
    }
  }

  /** On a queue nobody changes, the pages are the whole queue in order. */
  lemma PagingAFixedQueue(db: Tables, dbs: seq<Tables>, q: Scope, requested: int, pages: seq<seq<Key>>)
    requires AllSame(dbs, db) && Paging(dbs, q, None, requested, pages)
    ensures Flatten(pages) == Sort(Queue(db, q))
  {
    PagingIsAFullWalk(dbs, q, None, requested, pages);
    SameSnapshots(db, dbs, q);
    FixedWalkIsTheSortedTable(Queue(db, q), Snapshots(dbs, q), pages, None, PageSize(requested));
  }

  lemma SameSnapshots(db: Tables, dbs: seq<Tables>, q: Scope)
    requires AllSame(dbs, db)
    ensures AllSame(Snapshots(dbs, q), Queue(db, q))
  {
  }

  /** On a queue nobody changes, paging comes to an end, whatever page size is asked for. */
  lemma {:induction false} PagingEnds(db: Tables, q: Scope, cursor: Option<Key>, requested: int)
    returns (dbs: seq<Tables>, pages: seq<seq<Key>>)
    ensures AllSame(dbs, db) && Paging(dbs, q, cursor, requested, pages)
    decreases |Beyond(Queue(db, q), cursor)|
  {
    FetchIsAPage(db, q, cursor, requested);
    if Fetch(db, q, cursor, requested).next.None? {
      dbs, pages := [db], [Fetch(db, q, cursor, requested).entries];
    } else {
      BeyondShrinks(Queue(db, q), cursor, PageSize(requested));
      var someDbs, somePages := PagingEnds(db, q, Fetch(db, q, cursor, requested).next, requested);
      dbs, pages := [db] + someDbs, [Fetch(db, q, cursor, requested).entries] + somePages;
      PagingGrows(db, someDbs, q, cursor, requested, somePages);
    }
  }

  lemma PagingGrows(db: Tables, dbs: seq<Tables>, q: Scope, cursor: Option<Key>, requested: int, rest: seq<seq<Key>>)
    requires Fetch(db, q, cursor, requested).next.Some?
    requires Paging(dbs, q, Fetch(db, q, cursor, requested).next, requested, rest)
    ensures Paging([db] + dbs, q, cursor, requested, [Fetch(db, q, cursor, requested).entries] + rest)
  {
    var pages := [Fetch(db, q, cursor, requested).entries] + rest;
    assert pages[1..] == rest && ([db] + dbs)[1..] == dbs;
  }

  // ----- When urgency changes under the reviewer -----

  ghost predicate AtOrAfter(a: Key, b: Key) {
    a == b || Less(b, a)
  }

  /** The submission's key at each page, never moving forward in the queue. */
  ghost predicate OnlyRecedes(keys: seq<Key>) {
    forall i :: 0 <= i < |keys| - 1 ==> AtOrAfter(keys[i + 1], keys[i])
  }

  /** A submission that only becomes less urgent while it is being paged to is never missed (though it can
      be seen once for each key it had). */
  lemma {:induction false} RecedingIsNeverMissed(snaps: seq<set<Key>>, pages: seq<seq<Key>>, after: Option<Key>,
      limit: nat, keys: seq<Key>)
    requires FullWalk(snaps, pages, after, limit) && |keys| == |snaps| && OnlyRecedes(keys)
    requires (forall i :: 0 <= i < |keys| ==> keys[i] in snaps[i]) && IsAfter(keys[0], after)
    ensures exists i :: 0 <= i < |pages| && keys[i] in pages[i]
    decreases |pages|
  {
    PageContents(snaps[0], after, limit);
    if keys[0] !in pages[0] {
      assert keys[0] in Beyond(snaps[0], after);
      assert |pages| > 1;
      var last := Last(pages[0]);
      assert AtOrAfter(keys[1], keys[0]);
      if keys[1] != keys[0] { LessIsTransitive(last, keys[0], keys[1]); }
      assert OnlyRecedes(keys[1..]) by {
        forall i | 0 <= i < |keys[1..]| - 1
          ensures AtOrAfter(keys[1..][i + 1], keys[1..][i])
        {
          assert AtOrAfter(keys[i + 2], keys[i + 1]);
        }
      }
      RecedingIsNeverMissed(snaps[1..], pages[1..], Some(last), limit, keys[1..]);
      var i :| 0 <= i < |pages[1..]| && keys[1..][i] in pages[1..][i];
      assert keys[i + 1] in pages[i + 1];
    }
  }

  // ----- Exactly when a listed submission is seen -----

  function UrgencyKey(x: Id, ts: int, late: bool): Key {
    [if late then 0 else 1, ts, x]
  }

  /** Submission `x`, received at `ts`, is listed at every page, and late at page i exactly if `late[i]`. */
  ghost predicate Follows(dbs: seq<Tables>, q: Scope, x: Id, ts: int, late: seq<bool>) {
    && |dbs| == |late|
    && forall i :: 0 <= i < |dbs| ==> Listed(dbs[i], q, x) && SortKey(dbs[i], x) == UrgencyKey(x, ts, late[i])
  }

  /** It becomes urgent between two pages. */
  predicate TurnsUrgent(late: seq<bool>) {
    exists i :: 0 <= i < |late| - 1 && !late[i] && late[i + 1]
  }

  predicate IsRowOf(k: Key, x: Id) {
    |k| == 3 && k[2] == x
  }

  ghost predicate Seen(pages: seq<seq<Key>>, x: Id) {
    exists i, k :: 0 <= i < |pages| && k in pages[i] && IsRowOf(k, x)
  }

  ghost predicate SeenInEveryWalk(q: Scope, x: Id, ts: int, late: seq<bool>) {
    forall dbs, requested, pages :: Paging(dbs, q, None, requested, pages) && Follows(dbs, q, x, ts, late)
      ==> Seen(pages, x)
  }

  function UrgencyKeys(x: Id, ts: int, late: seq<bool>): seq<Key> {
    seq(|late|, i requires 0 <= i < |late| => UrgencyKey(x, ts, late[i]))
  }

  lemma NeverUrgentRecedes(x: Id, ts: int, late: seq<bool>)
    requires !TurnsUrgent(late)
    ensures OnlyRecedes(UrgencyKeys(x, ts, late))
  {
    var keys := UrgencyKeys(x, ts, late);
    forall i | 0 <= i < |keys| - 1
      ensures AtOrAfter(keys[i + 1], keys[i])
    {
      assert late[i] || !late[i + 1];
    }
  }

  lemma FollowedIsInEvery(dbs: seq<Tables>, q: Scope, x: Id, ts: int, late: seq<bool>)
    requires Follows(dbs, q, x, ts, late)
    ensures forall i :: 0 <= i < |dbs| ==> UrgencyKeys(x, ts, late)[i] in Snapshots(dbs, q)[i]
  {
    forall i | 0 <= i < |dbs|
      ensures UrgencyKeys(x, ts, late)[i] in Snapshots(dbs, q)[i]
    {
      ListedIsInTheQueue(dbs[i], q, x);
    }
  }

  lemma SeenUnlessItTurnsUrgent(dbs: seq<Tables>, q: Scope, requested: int, pages: seq<seq<Key>>, x: Id, ts: int,
      late: seq<bool>)
    requires Paging(dbs, q, None, requested, pages) && Follows(dbs, q, x, ts, late) && !TurnsUrgent(late)
    ensures Seen(pages, x)
  {
    var keys := UrgencyKeys(x, ts, late);
    NeverUrgentRecedes(x, ts, late);
    FollowedIsInEvery(dbs, q, x, ts, late);
    PagingIsAFullWalk(dbs, q, None, requested, pages);
    RecedingIsNeverMissed(Snapshots(dbs, q), pages, None, PageSize(requested), keys);
    var i :| 0 <= i < |pages| && keys[i] in pages[i];
    assert IsRowOf(keys[i], x);
  }

  /** The other submissions of the queue in which `x` goes unseen, one for each of `n` pages: those up to
      page `turn` late, before and around x, the rest not late and received after it. */
  function Other(x: Id, ts: int, turn: nat, j: nat): Key {
    [if j <= turn then 0 else 1, if j < turn then ts - turn + j else ts + 1 + j, x + 1 + j]
  }

  const ITS_TASK := 0
  const LATE_TASK := 1
  const NORMAL_TASK := 2
  const LATE_STATE := 0
  const NORMAL_STATE := 1

  function Project(q: Scope): Id {
    if q.project.Some? then q.project.value else 0
  }

  function InstanceIn(q: Scope, late: bool): Task {
    Task(Project(q), if late then LATE_STATE else NORMAL_STATE, true, false, false)
  }

  function SubmissionAt(q: Scope, x: Id, ts: int, turn: nat, id: Id): Submission {
    if id <= x then Submission(ITS_TASK, q.reviewer, ts, PendingReview)
    else
      var k := Other(x, ts, turn, id - x - 1);
      Submission(if k[0] == 0 then LATE_TASK else NORMAL_TASK, q.reviewer, k[1], PendingReview)
  }

  /** Nothing but the state of x's own instance differs from page to page. */
  function Unlucky(q: Scope, x: Id, ts: int, turn: nat, n: nat, late: bool): Tables {
    Tables(
      map id: Id | x <= id <= x + n :: SubmissionAt(q, x, ts, turn, id),
      map[ITS_TASK := InstanceIn(q, late), LATE_TASK := InstanceIn(q, true), NORMAL_TASK := InstanceIn(q, false)],
      {Project(q)}, map[LATE_STATE := true, NORMAL_STATE := false],
      map[Seat(Project(q), q.reviewer) := Owner], {q.reviewer})
  }

  lemma UnluckyRow(q: Scope, x: Id, ts: int, turn: nat, n: nat, late: bool, id: Id)
    ensures var db := Unlucky(q, x, ts, turn, n, late);
      && (id in db.submissions <==> x <= id <= x + n)
      && (x <= id <= x + n ==>
            Listed(db, q, id)
            && SortKey(db, id) == if id == x then UrgencyKey(x, ts, late) else Other(x, ts, turn, id - x - 1))
  {
  }

  lemma UnluckyQueue(q: Scope, x: Id, ts: int, turn: nat, n: nat, late: bool, k: Key)
    ensures k in Queue(Unlucky(q, x, ts, turn, n, late), q)
       <==> k == UrgencyKey(x, ts, late) || exists j: nat :: j < n && k == Other(x, ts, turn, j)
  {
    var db := Unlucky(q, x, ts, turn, n, late);
    if k in Queue(db, q) {
      var id :| id in db.submissions && Listed(db, q, id) && SortKey(db, id) == k;
      UnluckyRow(q, x, ts, turn, n, late, id);
      assert id == x || k == Other(x, ts, turn, id - x - 1);
    }
    if k == UrgencyKey(x, ts, late) {
      UnluckyRow(q, x, ts, turn, n, late, x);
      ListedIsInTheQueue(db, q, x);
    }
    if j: nat :| j < n && k == Other(x, ts, turn, j) {
      UnluckyRow(q, x, ts, turn, n, late, x + 1 + j);
      ListedIsInTheQueue(db, q, x + 1 + j);
    }
  }

  lemma LessOfThree(a: Key, b: Key)
    requires |a| == |b| == 3
    ensures Less(a, b) <==> a[0] < b[0] || (a[0] == b[0] && (a[1] < b[1] || (a[1] == b[1] && a[2] < b[2])))
  {
    var (a1, b1) := (a[1..], b[1..]);
    assert a1[1..] == [a[2]] && b1[1..] == [b[2]];
    assert Less([a[2]], [b[2]]) <==> a[2] < b[2] by {
      assert [a[2]][1..] == [] && [b[2]][1..] == [];
    }
    assert Less(a1, b1) <==> a1[0] < b1[0] || (a1[0] == b1[0] && Less(a1[1..], b1[1..]));
  }

  lemma OthersAscend(x: Id, ts: int, turn: nat, i: nat, j: nat)
    ensures Less(Other(x, ts, turn, i), Other(x, ts, turn, j)) <==> i < j
  {
    LessOfThree(Other(x, ts, turn, i), Other(x, ts, turn, j));
  }

  /** Up to page `turn` the submission is behind the page, from then on it is before the cursor. */
  lemma WhereItIs(x: Id, ts: int, turn: nat, late: seq<bool>, j: nat)
    requires j < |late| && turn < |late| - 1 && !late[turn] && late[turn + 1]
    ensures j <= turn ==> Less(Other(x, ts, turn, j), UrgencyKey(x, ts, late[j]))
    ensures j > turn ==> !Less(Other(x, ts, turn, j - 1), UrgencyKey(x, ts, late[j]))
  {
    LessOfThree(Other(x, ts, turn, j), UrgencyKey(x, ts, late[j]));
    if j > turn { LessOfThree(Other(x, ts, turn, j - 1), UrgencyKey(x, ts, late[j])); }
  }

  function CursorAt(x: Id, ts: int, turn: nat, j: nat): Option<Key> {
    if j == 0 then None else Some(Other(x, ts, turn, j - 1))
  }

  /** What page j could show. */
  ghost function LeftAt(q: Scope, x: Id, ts: int, turn: nat, late: seq<bool>, j: nat): set<Key>
    requires j < |late|
  {
    Beyond(Queue(Unlucky(q, x, ts, turn, |late|, late[j]), q), CursorAt(x, ts, turn, j))
  }

  lemma WhatIsLeft(q: Scope, x: Id, ts: int, turn: nat, late: seq<bool>, j: nat, k: Key)
    requires j < |late| && turn < |late| - 1 && !late[turn] && late[turn + 1]
    ensures k in LeftAt(q, x, ts, turn, late, j)
       <==> (j <= turn && k == UrgencyKey(x, ts, late[j]))
            || exists m: nat :: j <= m < |late| && k == Other(x, ts, turn, m)
  {
    UnluckyQueue(q, x, ts, turn, |late|, late[j], k);
    WhereItIs(x, ts, turn, late, j);
    if j > 0 {
      if j <= turn {
        WhereItIs(x, ts, turn, late, j);
        OthersAscend(x, ts, turn, j - 1, j);
        LessIsTransitive(Other(x, ts, turn, j - 1), Other(x, ts, turn, j), UrgencyKey(x, ts, late[j]));
      }
      forall m: nat | m < |late|
        ensures Less(Other(x, ts, turn, j - 1), Other(x, ts, turn, m)) <==> j <= m
      {
        OthersAscend(x, ts, turn, j - 1, m);
      }
    }
  }

  lemma NextIsLeast(q: Scope, x: Id, ts: int, turn: nat, late: seq<bool>, j: nat)
    requires j < |late| && turn < |late| - 1 && !late[turn] && late[turn + 1]
    ensures IsLeast(LeftAt(q, x, ts, turn, late, j), Other(x, ts, turn, j))
    ensures |LeftAt(q, x, ts, turn, late, j)| > 1 <==> j < |late| - 1
  {
    var left := LeftAt(q, x, ts, turn, late, j);
    var next := Other(x, ts, turn, j);
    WhatIsLeft(q, x, ts, turn, late, j, next);
    forall k | k in left
      ensures k == next || (Less(next, k) && j < |late| - 1)
    {
      WhatIsLeft(q, x, ts, turn, late, j, k);
      if j <= turn && k == UrgencyKey(x, ts, late[j]) {
        WhereItIs(x, ts, turn, late, j);
      } else {
        var m: nat :| j <= m < |late| && k == Other(x, ts, turn, m);
        OthersAscend(x, ts, turn, j, m);
      }
    }
    if j < |late| - 1 {
      var after := Other(x, ts, turn, j + 1);
      WhatIsLeft(q, x, ts, turn, late, j, after);
      assert after != next;
      SubsetSize({next, after}, left);
    } else {
      assert left == {next};
    }
  }

  lemma LeastIsThePage(S: set<Key>, after: Option<Key>, m: Key)
    requires IsLeast(Beyond(S, after), m)
    ensures Page(S, after, 1) == [m]
  {
    PageContents(S, after, 1);
    var p := Page(S, after, 1);
    SubsetSize({m}, Beyond(S, after));
    assert p[0] in p && Last(p) == p[0];
    if p[0] != m {
      LessIsTransitive(m, p[0], m);
      LessIsIrreflexive(m);
    }
  }

  function ResponseAt(x: Id, ts: int, turn: nat, n: nat, j: nat): Response {
    var next := Other(x, ts, turn, j);
    Response([next], if j < n - 1 then Some(next) else None)
  }

  /** From page j on, of n, the pages show the others, one at a time. */
  ghost predicate ShowsTheOthers(dbs: seq<Tables>, q: Scope, x: Id, ts: int, turn: nat, j: nat, n: nat) {
    && j + |dbs| == n
    && forall i :: 0 <= i < |dbs| ==>
         Fetch(dbs[i], q, CursorAt(x, ts, turn, j + i), 1) == ResponseAt(x, ts, turn, n, j + i)
  }

  lemma UnluckyFetch(q: Scope, x: Id, ts: int, turn: nat, late: seq<bool>, j: nat)
    requires j < |late| && turn < |late| - 1 && !late[turn] && late[turn + 1]
    ensures Fetch(Unlucky(q, x, ts, turn, |late|, late[j]), q, CursorAt(x, ts, turn, j), 1)
         == ResponseAt(x, ts, turn, |late|, j)
  {
    var db := Unlucky(q, x, ts, turn, |late|, late[j]);
    NextIsLeast(q, x, ts, turn, late, j);
    LeastIsThePage(Queue(db, q), CursorAt(x, ts, turn, j), Other(x, ts, turn, j));
    FetchIsAPage(db, q, CursorAt(x, ts, turn, j), 1);
  }

  function OtherPages(x: Id, ts: int, turn: nat, from: nat, n: nat): (pages: seq<seq<Key>>)
    requires from <= n
    ensures |pages| == n - from && forall i :: 0 <= i < |pages| ==> pages[i] == [Other(x, ts, turn, from + i)]
  {
    seq(n - from, i requires 0 <= i < n - from => [Other(x, ts, turn, from + i)])
  }

  lemma {:induction false} PagingTheOthers(dbs: seq<Tables>, q: Scope, x: Id, ts: int, turn: nat, j: nat, n: nat)
    requires ShowsTheOthers(dbs, q, x, ts, turn, j, n) && dbs != []
    ensures Paging(dbs, q, CursorAt(x, ts, turn, j), 1, OtherPages(x, ts, turn, j, n))
    decreases |dbs|
  {
    FirstPageShowsOne(dbs, q, x, ts, turn, j, n);
    var pages := OtherPages(x, ts, turn, j, n);
    if |dbs| > 1 {
      LaterPagesShowThem(dbs, q, x, ts, turn, j, n);
      PagingTheOthers(dbs[1..], q, x, ts, turn, j + 1, n);
      assert pages[1..] == OtherPages(x, ts, turn, j + 1, n);
    }
    PagingFolds(dbs, q, CursorAt(x, ts, turn, j), 1, pages, ResponseAt(x, ts, turn, n, j));
  }

  lemma FirstPageShowsOne(dbs: seq<Tables>, q: Scope, x: Id, ts: int, turn: nat, j: nat, n: nat)
    requires ShowsTheOthers(dbs, q, x, ts, turn, j, n) && dbs != []
    ensures Fetch(dbs[0], q, CursorAt(x, ts, turn, j), 1) == ResponseAt(x, ts, turn, n, j)
  {
    assert Fetch(dbs[0], q, CursorAt(x, ts, turn, j + 0), 1) == ResponseAt(x, ts, turn, n, j + 0);
  }

  lemma PagingFolds(dbs: seq<Tables>, q: Scope, cursor: Option<Key>, requested: int, pages: seq<seq<Key>>,
      r: Response)
    requires |dbs| == |pages| > 0 && Fetch(dbs[0], q, cursor, requested) == r && pages[0] == r.entries
    requires if r.next.None? then |pages| == 1 else |pages| > 1 && Paging(dbs[1..], q, r.next, requested, pages[1..])
    ensures Paging(dbs, q, cursor, requested, pages)
  {
  }

  lemma LaterPagesShowThem(dbs: seq<Tables>, q: Scope, x: Id, ts: int, turn: nat, j: nat, n: nat)
    requires ShowsTheOthers(dbs, q, x, ts, turn, j, n) && |dbs| > 1
    ensures ShowsTheOthers(dbs[1..], q, x, ts, turn, j + 1, n)
  {
    forall i | 0 <= i < |dbs[1..]|
      ensures Fetch(dbs[1..][i], q, CursorAt(x, ts, turn, j + 1 + i), 1) == ResponseAt(x, ts, turn, n, j + 1 + i)
    {
      assert Fetch(dbs[i + 1], q, CursorAt(x, ts, turn, j + (i + 1)), 1) == ResponseAt(x, ts, turn, n, j + (i + 1));
    }
  }

  ghost function UnluckyTables(q: Scope, x: Id, ts: int, turn: nat, late: seq<bool>): seq<Tables> {
    seq(|late|, j requires 0 <= j < |late| => Unlucky(q, x, ts, turn, |late|, late[j]))
  }

  lemma UnluckyTablesFollow(q: Scope, x: Id, ts: int, turn: nat, late: seq<bool>)
    requires turn < |late| - 1 && !late[turn] && late[turn + 1]
    ensures ShowsTheOthers(UnluckyTables(q, x, ts, turn, late), q, x, ts, turn, 0, |late|)
    ensures Follows(UnluckyTables(q, x, ts, turn, late), q, x, ts, late)
  {
    forall j | 0 <= j < |late|
      ensures var db := UnluckyTables(q, x, ts, turn, late)[j];
        && Fetch(db, q, CursorAt(x, ts, turn, j), 1) == ResponseAt(x, ts, turn, |late|, j)
        && Listed(db, q, x) && SortKey(db, x) == UrgencyKey(x, ts, late[j])
    {
      UnluckyFetch(q, x, ts, turn, late, j);
      UnluckyRow(q, x, ts, turn, |late|, late[j], x);
    }
  }

  lemma OthersAreNotIt(x: Id, ts: int, turn: nat, n: nat)
    ensures !Seen(OtherPages(x, ts, turn, 0, n), x)
  {
  }

  lemma MissedInOneWalk(dbs: seq<Tables>, q: Scope, requested: int, pages: seq<seq<Key>>, x: Id, ts: int,
      late: seq<bool>)
    requires Paging(dbs, q, None, requested, pages) && Follows(dbs, q, x, ts, late) && !Seen(pages, x)
    ensures !SeenInEveryWalk(q, x, ts, late)
  {
  }

  lemma TurningUrgentIsMissed(q: Scope, x: Id, ts: int, late: seq<bool>)
    requires TurnsUrgent(late)
    ensures !SeenInEveryWalk(q, x, ts, late)
  {
    var turn: nat :| turn < |late| - 1 && !late[turn] && late[turn + 1];
    var dbs := UnluckyTables(q, x, ts, turn, late);
    UnluckyTablesFollow(q, x, ts, turn, late);
    PagingTheOthers(dbs, q, x, ts, turn, 0, |late|);
    OthersAreNotIt(x, ts, turn, |late|);
    MissedInOneWalk(dbs, q, 1, OtherPages(x, ts, turn, 0, |late|), x, ts, late);
  }

  /** The exact condition: a submission that stays listed is seen in every walk through the queue, whatever
      else happens to the tables and whatever the page size, if and only if it never becomes urgent between
      two of the pages. If it does, it can go unseen although nothing else changes at all. */
  lemma SeenInEveryWalkIffItNeverTurnsUrgent(q: Scope, x: Id, ts: int, late: seq<bool>)
    ensures SeenInEveryWalk(q, x, ts, late) <==> !TurnsUrgent(late)
  {
    if TurnsUrgent(late) {
      TurningUrgentIsMissed(q, x, ts, late);
    } else {
      forall dbs, requested, pages | Paging(dbs, q, None, requested, pages) && Follows(dbs, q, x, ts, late)
        ensures Seen(pages, x)
      {
        SeenUnlessItTurnsUrgent(dbs, q, requested, pages, x, ts, late);
      }
    }
  }

  // ----- Deciding -----

  /** UpdateEvidenceSubmissionApproval writes only a pending row. */
  const DECIDE := (id: Id, from: Status, to: Status) => from.PendingReview? && !to.PendingReview?

  /** Of any number of reviewers deciding one submission at once, exactly one decision is recorded: a
      second effective write to it, absent a resubmission, does not exist. */
  lemma DecidedOnce(cells: map<Id, Status>, steps: seq<CompareAndSet.Step<Status>>, id: Id, j: nat, k: nat)
    requires var log := CompareAndSet.Run(DECIDE, CompareAndSet.Start(cells), steps).log;
      CompareAndSet.OnlyPasses(log, id) && j < |log| && k < |log| && log[j].cell == id && log[k].cell == id
    ensures j == k
  {
    var log := CompareAndSet.Run(DECIDE, CompareAndSet.Start(cells), steps).log;
    var rank := (s: Status) => (if s.PendingReview? then 0 else 1) as nat;
    if j != k {
      var first, second := Min(j, k), Max(j, k);
      CompareAndSet.EveryRunIsFaithful(DECIDE, cells, steps);
      assert CompareAndSet.Ruled(DECIDE, log[first]);
      CompareAndSet.WritesAscend(DECIDE, rank, cells, steps, id, first, second);
      assert false;
    }
  }

  /** And one is: once all of several reviewers who saw the submission pending have submitted, it holds the
      decision of the first, and no other. */
  lemma FirstDecisionIsRecorded(w: CompareAndSet.World<Status>, reviewers: set<Id>, id: Id, decision: Id -> Status,
    steps: seq<CompareAndSet.Step<Status>>)
    requires CompareAndSet.Racing(w, reviewers, id, PendingReview, decision)
    requires forall r :: r in reviewers ==> decision(r) != PendingReview
    requires CompareAndSet.Undisturbed(DECIDE, w, reviewers, id, steps)
    requires CompareAndSet.Waiting(CompareAndSet.Run(DECIDE, w, steps), reviewers) != reviewers
    ensures var v, first := CompareAndSet.Run(DECIDE, w, steps), CompareAndSet.First(reviewers, steps);
      && first.Some? && first.value in reviewers
      && CompareAndSet.Lookup(v.cells, id) == Some(decision(first.value))
      && |CompareAndSet.NewWrites(w, v, id)| == 1
      && forall m :: m in CompareAndSet.NewWrites(w, v, id) ==> v.log[m].author == first
  {
    CompareAndSet.SomebodyWasFirst(DECIDE, w, reviewers, id, PendingReview, decision, steps);
    CompareAndSet.FirstToAttemptHasIt(DECIDE, w, reviewers, id, PendingReview, decision, steps);
  }
}
