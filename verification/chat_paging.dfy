/** Reading a channel from an anchor message backward and forward, page by page, while people post and
    delete. */
module ChatPaging {
  import opened Prelude
  import opened Lexicographic
  import opened KeysetPaging

  /** UUID v7, in time order. */
  type Id = int

  datatype Message = Message(channel: Id, reply: bool, deleted: bool)

  type Messages = map<Id, Message>

  predicate Shown(db: Messages, channel: Id, m: Id) {
    m in db && db[m].channel == channel && !db[m].reply && !db[m].deleted
  }

  /** Keys for ORDER BY id DESC and for ORDER BY id ASC. */
  ghost function Down(db: Messages, channel: Id): set<Key> {
    set m | m in db && Shown(db, channel, m) :: [-m]
  }

  ghost function DownFrom(db: Messages, channel: Id, anchor: Id): set<Key> {
    set m | m in db && Shown(db, channel, m) && m <= anchor :: [-m]
  }

  ghost function Up(db: Messages, channel: Id): set<Key> {
    set m | m in db && Shown(db, channel, m) :: [m]
  }

  function PageSize(requested: int): (size: nat)
    ensures 1 <= size <= 100
    ensures 1 <= requested <= 100 ==> size == requested
    ensures !(1 <= requested <= 100) ==> size == 50
  {
    if requested <= 0 || requested > 100 then 50 else requested
  }

  // ----- ListMessages -----

  /** The rows of one response in the order of the query, and its two tokens, as keys of that order. */
  datatype Reply = Reply(rows: seq<Key>, previous: Option<Key>, next: Key)

  /** With an anchor: ListChannelMessagesUpToAnchor. The next token is the newest row, or the anchor. */
  ghost function AnchorPage(db: Messages, channel: Id, anchor: Id, requested: int): Reply {
    var rows := Page(DownFrom(db, channel, anchor), None, PageSize(requested));
    Reply(rows, if |rows| == PageSize(requested) then Some(Last(rows)) else None,
          if rows == [] then [-anchor] else rows[0])
  }

  /** Older: ListChannelMessages before the previous token. */
  ghost function OlderPage(db: Messages, channel: Id, before: Key, requested: int): Reply {
    var rows := Page(Down(db, channel), Some(before), PageSize(requested));
    Reply(rows, if |rows| == PageSize(requested) then Some(Last(rows)) else None,
          if rows == [] then before else rows[0])
  }

  /** Newer: ListChannelMessagesAfter the next token. */
  ghost function NewerPage(db: Messages, channel: Id, after: Key, requested: int): seq<Key> {
    Page(Up(db, channel), Some(after), PageSize(requested))
  }

  function Flip(k: Key): Key
    requires |k| == 1
  {
    [-k[0]]
  }

  // ----- The client -----

  /** Following the previous tokens until there is none. */
  ghost predicate Backward(dbs: seq<Messages>, channel: Id, before: Key, requested: int, pages: seq<seq<Key>>) {
    && |dbs| == |pages| > 0
    && var r := OlderPage(dbs[0], channel, before, requested);
    && pages[0] == r.rows
    && if r.previous.None? then |pages| == 1 else Backward(dbs[1..], channel, r.previous.value, requested, pages[1..])
  }

  /** Following the next tokens until a page is empty. */
  ghost predicate Forward(dbs: seq<Messages>, channel: Id, after: Key, requested: int, pages: seq<seq<Key>>) {
    && |dbs| == |pages| > 0
    && pages[0] == NewerPage(dbs[0], channel, after, requested)
    && if pages[0] == [] then |pages| == 1 else Forward(dbs[1..], channel, Last(pages[0]), requested, pages[1..])
  }

  ghost function Downs(dbs: seq<Messages>, channel: Id): seq<set<Key>> {
    seq(|dbs|, i requires 0 <= i < |dbs| => Down(dbs[i], channel))
  }

  ghost function Ups(dbs: seq<Messages>, channel: Id): seq<set<Key>> {
    seq(|dbs|, i requires 0 <= i < |dbs| => Up(dbs[i], channel))
  }

  lemma DownsSplit(dbs: seq<Messages>, channel: Id)
    requires dbs != []
    ensures Downs(dbs, channel) == [Down(dbs[0], channel)] + Downs(dbs[1..], channel)
    ensures |dbs| == 1 ==> Downs(dbs, channel) == [Down(dbs[0], channel)]
  {
  }

  lemma UpsSplit(dbs: seq<Messages>, channel: Id)
    requires dbs != []
    ensures Ups(dbs, channel) == [Up(dbs[0], channel)] + Ups(dbs[1..], channel)
    ensures |dbs| == 1 ==> Ups(dbs, channel) == [Up(dbs[0], channel)]
  {
  }

  lemma {:induction false} BackwardIsAFullWalk(dbs: seq<Messages>, channel: Id, before: Key, requested: int,
      pages: seq<seq<Key>>)
    requires Backward(dbs, channel, before, requested, pages)
    ensures FullWalk(Downs(dbs, channel), pages, Some(before), PageSize(requested))
    decreases |pages|
  {
    PageContents(Down(dbs[0], channel), Some(before), PageSize(requested));
    DownsSplit(dbs, channel);
    if |pages[0]| == PageSize(requested) {
      BackwardIsAFullWalk(dbs[1..], channel, Last(pages[0]), requested, pages[1..]);
      FullWalkGrows(Down(dbs[0], channel), Downs(dbs[1..], channel), pages, Some(before), PageSize(requested));
    } else {
      FullWalkOfOne(Down(dbs[0], channel), pages, Some(before), PageSize(requested));
    }
  }

  lemma {:induction false} ForwardIsAFullWalk(dbs: seq<Messages>, channel: Id, after: Key, requested: int,
      pages: seq<seq<Key>>)
    requires Forward(dbs, channel, after, requested, pages)
    ensures FullWalk(Ups(dbs, channel), pages, Some(after), PageSize(requested))
    decreases |pages|
  {
    PageContents(Up(dbs[0], channel), Some(after), PageSize(requested));
    UpsSplit(dbs, channel);
    if pages[0] == [] {
      FullWalkOfOne(Up(dbs[0], channel), pages, Some(after), PageSize(requested));
    } else {
      ForwardIsAFullWalk(dbs[1..], channel, Last(pages[0]), requested, pages[1..]);
      FullWalkGrows(Up(dbs[0], channel), Ups(dbs[1..], channel), pages, Some(after), PageSize(requested));
    }
  }

  /** The whole visit: the anchor page, the older pages if it was full, and the newer pages. `olds` and
      `news` are the table states the later pages saw. */
  datatype Visit = Visit(first: seq<Key>, older: seq<seq<Key>>, newer: seq<seq<Key>>)

  ghost predicate Visited(db: Messages, olds: seq<Messages>, news: seq<Messages>, channel: Id,
      anchor: Id, requested: int, v: Visit) {
    var r := AnchorPage(db, channel, anchor, requested);
    && v.first == r.rows
    && (if r.previous.None? then v.older == [] && olds == []
        else Backward(olds, channel, r.previous.value, requested, v.older))
    && |r.next| == 1 && Forward(news, channel, Flip(r.next), requested, v.newer)
  }

  // ----- What a page shows -----

  /** The rows are messages of the channel that are neither replies nor deleted, with ids in the range. */
  ghost predicate ShowsOnly(db: Messages, channel: Id, ids: seq<Id>, low: Option<Id>, high: Option<Id>) {
    forall i :: 0 <= i < |ids| ==>
      && ids[i] in db && db[ids[i]] == Message(channel, false, false)
      && (low.Some? ==> low.value < ids[i]) && (high.Some? ==> ids[i] <= high.value)
  }

  ghost function IdsDown(rows: seq<Key>): seq<Id> {
    seq(|rows|, i requires 0 <= i < |rows| => if |rows[i]| == 1 then -rows[i][0] else 0)
  }

  ghost function IdsUp(rows: seq<Key>): seq<Id> {
    seq(|rows|, i requires 0 <= i < |rows| => if |rows[i]| == 1 then rows[i][0] else 0)
  }

  /** A page shows only what the channel shows when it is read: up to the anchor, older than the previous
      token, newer than the next one. */
  lemma PagesShowTheChannel(db: Messages, channel: Id, anchor: Id, before: Id, after: Id, requested: int)
    ensures ShowsOnly(db, channel, IdsDown(AnchorPage(db, channel, anchor, requested).rows), None, Some(anchor))
    ensures ShowsOnly(db, channel, IdsDown(OlderPage(db, channel, [-before], requested).rows), None, Some(before - 1))
    ensures ShowsOnly(db, channel, IdsUp(NewerPage(db, channel, [after], requested)), Some(after), None)
  {
    AnchorPageShows(db, channel, anchor, requested);
    OlderPageShows(db, channel, before, requested);
    NewerPageShows(db, channel, after, requested);
  }

  lemma LessOfOne(a: Key, b: Key)
    requires |a| == |b| == 1
    ensures Less(a, b) <==> a[0] < b[0]
  {
    assert a[1..] == [] && b[1..] == [];
  }

  lemma KeysAreTheShown(db: Messages, channel: Id, anchor: Id, k: Key)
    ensures k in Down(db, channel) <==> |k| == 1 && -k[0] in db && db[-k[0]] == Message(channel, false, false)
    ensures k in DownFrom(db, channel, anchor) <==> k in Down(db, channel) && -k[0] <= anchor
    ensures k in Up(db, channel) <==> |k| == 1 && k[0] in db && db[k[0]] == Message(channel, false, false)
  {
    if |k| == 1 {
      assert k == [k[0]] && [-(-k[0])] == k;
    }
  }

  lemma AnchorPageShows(db: Messages, channel: Id, anchor: Id, requested: int)
    ensures ShowsOnly(db, channel, IdsDown(AnchorPage(db, channel, anchor, requested).rows), None, Some(anchor))
  {
    var rows := AnchorPage(db, channel, anchor, requested).rows;
    PageContents(DownFrom(db, channel, anchor), None, PageSize(requested));
    forall i | 0 <= i < |rows|
      ensures |rows[i]| == 1 && -rows[i][0] in db && db[-rows[i][0]] == Message(channel, false, false)
      ensures -rows[i][0] <= anchor
    {
      assert rows[i] in rows;
      KeysAreTheShown(db, channel, anchor, rows[i]);
    }
  }

  lemma OlderPageShows(db: Messages, channel: Id, before: Id, requested: int)
    ensures ShowsOnly(db, channel, IdsDown(OlderPage(db, channel, [-before], requested).rows), None, Some(before - 1))
  {
    var rows := OlderPage(db, channel, [-before], requested).rows;
    PageContents(Down(db, channel), Some([-before]), PageSize(requested));
    forall i | 0 <= i < |rows|
      ensures |rows[i]| == 1 && -rows[i][0] in db && db[-rows[i][0]] == Message(channel, false, false)
      ensures -rows[i][0] < before
    {
      assert rows[i] in rows && IsAfter(rows[i], Some([-before]));
      KeysAreTheShown(db, channel, 0, rows[i]);
      LessOfOne([-before], rows[i]);
    }
  }

  lemma NewerPageShows(db: Messages, channel: Id, after: Id, requested: int)
    ensures ShowsOnly(db, channel, IdsUp(NewerPage(db, channel, [after], requested)), Some(after), None)
  {
    var rows := NewerPage(db, channel, [after], requested);
    PageContents(Up(db, channel), Some([after]), PageSize(requested));
    forall i | 0 <= i < |rows|
      ensures |rows[i]| == 1 && rows[i][0] in db && db[rows[i][0]] == Message(channel, false, false)
      ensures rows[i][0] > after
    {
      assert rows[i] in rows && IsAfter(rows[i], Some([after]));
      KeysAreTheShown(db, channel, 0, rows[i]);
      LessOfOne([after], rows[i]);
    }
  }

  /** The tokens of a page: the older one is its oldest row, given exactly when the page is full; the newer one
      its newest row, or where it started if it shows nothing. */
  lemma TokensOfAPage(db: Messages, channel: Id, anchor: Id, before: Key, requested: int)
    ensures var r := AnchorPage(db, channel, anchor, requested);
      && (r.previous.Some? <==> |DownFrom(db, channel, anchor)| >= PageSize(requested))
      && (r.previous.Some? ==> r.previous.value == Last(r.rows))
      && (DownFrom(db, channel, anchor) != {} ==> IsLeast(DownFrom(db, channel, anchor), r.next))
      && (DownFrom(db, channel, anchor) == {} ==> r.next == [-anchor])
    ensures var r := OlderPage(db, channel, before, requested);
      && (r.previous.Some? <==> |Beyond(Down(db, channel), Some(before))| >= PageSize(requested))
      && (r.previous.Some? ==> r.previous.value == Last(r.rows))
      && (Beyond(Down(db, channel), Some(before)) != {} ==> IsLeast(Beyond(Down(db, channel), Some(before)), r.next))
      && (Beyond(Down(db, channel), Some(before)) == {} ==> r.next == before)
  {
    FirstOfAPage(DownFrom(db, channel, anchor), None, PageSize(requested));
    FirstOfAPage(Down(db, channel), Some(before), PageSize(requested));
  }

  lemma FirstOfAPage(S: set<Key>, after: Option<Key>, limit: nat)
    requires limit >= 1
    ensures |Page(S, after, limit)| == Min(limit, |Beyond(S, after)|)
    ensures Beyond(S, after) == {} <==> Page(S, after, limit) == []
    ensures Beyond(S, after) != {} ==> IsLeast(Beyond(S, after), Page(S, after, limit)[0])
  {
    PageContents(S, after, limit);
    var all, page := Sort(Beyond(S, after)), Page(S, after, limit);
    if all != [] {
      SortedHeadIsLeast(all);
      assert page[0] == all[0] && all[0] in Elements(all);
    }
  }

  // ----- Keys of one component -----

  ghost predicate AllSingle(rows: seq<Key>) {
    forall i :: 0 <= i < |rows| ==> |rows[i]| == 1
  }

  ghost predicate Increasing(rows: seq<Key>)
    requires AllSingle(rows)
  {
    forall i, j :: 0 <= i < j < |rows| ==> rows[i][0] < rows[j][0]
  }

  lemma SortedIsIncreasing(rows: seq<Key>)
    requires AllSingle(rows)
    ensures Sorted(rows) <==> Increasing(rows)
  {
    forall i, j | 0 <= i < j < |rows|
      ensures Less(rows[i], rows[j]) <==> rows[i][0] < rows[j][0]
    {
    }
  }

  /** Newest first to oldest first. */
  ghost function Reversed(rows: seq<Key>): seq<Key>
    requires AllSingle(rows)
  {
    seq(|rows|, i requires 0 <= i < |rows| => Flip(rows[|rows| - 1 - i]))
  }

  lemma ReversedAt(rows: seq<Key>, i: nat)
    requires AllSingle(rows) && i < |rows|
    ensures Reversed(rows)[i] == [-rows[|rows| - 1 - i][0]]
  {
    assert Reversed(rows)[i] == Flip(rows[|rows| - 1 - i]);
  }

  lemma SingleLess(a: Key, b: Key)
    requires |a| == 1 && |b| == 1
    ensures Less(a, b) <==> a[0] < b[0]
  {
  }

  ghost predicate AtMost(rows: seq<Key>, token: int)
    requires AllSingle(rows)
  {
    forall i :: 0 <= i < |rows| ==> -rows[i][0] <= token
  }

  ghost predicate MoreThan(rows: seq<Key>, token: int)
    requires AllSingle(rows)
  {
    forall i :: 0 <= i < |rows| ==> token < rows[i][0]
  }

  /** Two halves on either side of a token make one increasing list. */
  lemma JoinHalves(back: seq<Key>, ahead: seq<Key>, token: int)
    requires AllSingle(back) && AllSingle(ahead) && Increasing(back) && Increasing(ahead)
    requires AtMost(back, token) && MoreThan(ahead, token)
    ensures Sorted(Reversed(back) + ahead)
  {
    var all := Reversed(back) + ahead;
    forall i | 0 <= i < |all|
      ensures |all[i]| == 1
      ensures i < |back| ==> all[i][0] == -back[|back| - 1 - i][0]
    {
      if i < |back| { ReversedAt(back, i); }
    }
    SortedIsIncreasing(all);
  }

  lemma InReversed(back: seq<Key>, ahead: seq<Key>, m: Id)
    requires AllSingle(back) && ([-m] in back || [m] in ahead)
    ensures [m] in Reversed(back) + ahead
  {
    if [-m] in back {
      var i :| 0 <= i < |back| && back[i] == [-m];
      ReversedAt(back, |back| - 1 - i);
      assert Reversed(back)[|back| - 1 - i] == [m];
    }
  }

  // ----- Backward from the anchor -----

  ghost function BackSnapshots(db: Messages, olds: seq<Messages>, channel: Id, anchor: Id): seq<set<Key>> {
    [DownFrom(db, channel, anchor)] + Downs(olds, channel)
  }

  lemma BackwardFromAnchor(db: Messages, olds: seq<Messages>, news: seq<Messages>, channel: Id, anchor: Id,
      requested: int, v: Visit)
    requires Visited(db, olds, news, channel, anchor, requested, v)
    ensures FullWalk(BackSnapshots(db, olds, channel, anchor), [v.first] + v.older, None, PageSize(requested))
  {
    var S, size := DownFrom(db, channel, anchor), PageSize(requested);
    PageContents(S, None, size);
    if |v.first| == size {
      BackwardIsAFullWalk(olds, channel, Last(v.first), requested, v.older);
      assert ([v.first] + v.older)[1..] == v.older;
      FullWalkGrows(S, Downs(olds, channel), [v.first] + v.older, None, size);
    } else {
      FullWalkOfOne(S, [v.first], None, size);
      assert BackSnapshots(db, olds, channel, anchor) == [S] && [v.first] + v.older == [v.first];
    }
  }

  ghost predicate SingleKeys(snaps: seq<set<Key>>) {
    forall i, k :: 0 <= i < |snaps| && k in snaps[i] ==> |k| == 1
  }

  lemma WalkOfSingles(snaps: seq<set<Key>>, pages: seq<seq<Key>>, after: Option<Key>, limit: nat)
    requires SingleKeys(snaps) && FullWalk(snaps, pages, after, limit)
    ensures AllSingle(Flatten(pages)) && Increasing(Flatten(pages))
  {
    WalkIsExact(snaps, pages, after, limit);
    forall i | 0 <= i < |Flatten(pages)|
      ensures |Flatten(pages)[i]| == 1
    {
      var k := Flatten(pages)[i];
      assert k in Flatten(pages);
      var j :| 0 <= j < |pages| && k in pages[j] && k in snaps[j];
    }
    SortedIsIncreasing(Flatten(pages));
  }

  lemma BackSnapshotsAreSingle(db: Messages, olds: seq<Messages>, channel: Id, anchor: Id)
    ensures SingleKeys(BackSnapshots(db, olds, channel, anchor))
  {
    var snaps := BackSnapshots(db, olds, channel, anchor);
    forall i, k | 0 <= i < |snaps| && k in snaps[i]
      ensures |k| == 1
    {
      assert i > 0 ==> snaps[i] == Down(olds[i - 1], channel);
    }
  }

  lemma UpsAreSingle(news: seq<Messages>, channel: Id)
    ensures SingleKeys(Ups(news, channel))
  {
  }

  /** The first row of a walk has the least key. */
  lemma TopBounds(rows: seq<Key>)
    requires AllSingle(rows) && Increasing(rows) && rows != []
    ensures AtMost(rows, -rows[0][0])
  {
  }

  lemma NextIsTheTop(db: Messages, olds: seq<Messages>, news: seq<Messages>, channel: Id, anchor: Id,
      requested: int, v: Visit)
    requires Visited(db, olds, news, channel, anchor, requested, v)
    requires AllSingle(Flatten([v.first] + v.older)) && Increasing(Flatten([v.first] + v.older))
    ensures var token := AnchorPage(db, channel, anchor, requested).next;
      |token| == 1 && AtMost(Flatten([v.first] + v.older), -token[0])
  {
    var pages := [v.first] + v.older;
    assert pages[0] == v.first && pages[1..] == v.older;
    if v.first == [] {
      assert v.older == [];
      assert Flatten(pages) == [];
    } else {
      assert Flatten(pages)[0] == v.first[0];
      TopBounds(Flatten(pages));
    }
  }

  lemma ShownIsInEvery(db: Messages, olds: seq<Messages>, channel: Id, anchor: Id, m: Id)
    requires m <= anchor && Shown(db, channel, m) && forall i :: 0 <= i < |olds| ==> Shown(olds[i], channel, m)
    ensures InEvery([-m], BackSnapshots(db, olds, channel, anchor))
  {
    var snaps := BackSnapshots(db, olds, channel, anchor);
    forall i | 0 <= i < |snaps|
      ensures [-m] in snaps[i]
    {
      assert i > 0 ==> snaps[i] == Down(olds[i - 1], channel);
    }
  }

  /** Everything shown throughout, from the anchor down, is in the backward half. */
  lemma BackwardIsComplete(db: Messages, olds: seq<Messages>, news: seq<Messages>, channel: Id, anchor: Id,
      requested: int, v: Visit, m: Id)
    requires Visited(db, olds, news, channel, anchor, requested, v)
    requires m <= anchor && Shown(db, channel, m) && forall i :: 0 <= i < |olds| ==> Shown(olds[i], channel, m)
    ensures [-m] in Flatten([v.first] + v.older)
  {
    BackwardFromAnchor(db, olds, news, channel, anchor, requested, v);
    ShownIsInEvery(db, olds, channel, anchor, m);
    WalkIsExact(BackSnapshots(db, olds, channel, anchor), [v.first] + v.older, None, PageSize(requested));
    assert IsAfter([-m], None);
  }

  // ----- Forward -----

  lemma ForwardIsAhead(news: seq<Messages>, channel: Id, token: Key, requested: int, pages: seq<seq<Key>>)
    requires |token| == 1 && Forward(news, channel, token, requested, pages)
    ensures AllSingle(Flatten(pages)) && Increasing(Flatten(pages)) && MoreThan(Flatten(pages), token[0])
  {
    ForwardIsAFullWalk(news, channel, token, requested, pages);
    UpsAreSingle(news, channel);
    WalkOfSingles(Ups(news, channel), pages, Some(token), PageSize(requested));
    WalkIsExact(Ups(news, channel), pages, Some(token), PageSize(requested));
    forall i | 0 <= i < |Flatten(pages)|
      ensures token[0] < Flatten(pages)[i][0]
    {
      assert Flatten(pages)[i] in Flatten(pages);
      assert IsAfter(Flatten(pages)[i], Some(token));
      SingleLess(token, Flatten(pages)[i]);
    }
  }

  lemma ForwardIsComplete(news: seq<Messages>, channel: Id, token: Key, requested: int, pages: seq<seq<Key>>, m: Id)
    requires |token| == 1 && Forward(news, channel, token, requested, pages)
    requires token[0] < m && forall i :: 0 <= i < |news| ==> Shown(news[i], channel, m)
    ensures [m] in Flatten(pages)
  {
    ForwardIsAFullWalk(news, channel, token, requested, pages);
    WalkIsExact(Ups(news, channel), pages, Some(token), PageSize(requested));
    assert InEvery([m], Ups(news, channel)) && IsAfter([m], Some(token));
  }

  // ----- The visit -----

  /** Shown for the whole visit. */
  ghost predicate Lasting(db: Messages, olds: seq<Messages>, news: seq<Messages>, channel: Id, m: Id) {
    && Shown(db, channel, m)
    && (forall i :: 0 <= i < |olds| ==> Shown(olds[i], channel, m))
    && (forall i :: 0 <= i < |news| ==> Shown(news[i], channel, m))
  }

  /** No message shown when the anchor page was read lies between the next token and the anchor. */
  lemma NothingBetween(db: Messages, channel: Id, anchor: Id, requested: int, m: Id)
    requires Shown(db, channel, m) && |AnchorPage(db, channel, anchor, requested).next| == 1
    ensures m <= anchor || -AnchorPage(db, channel, anchor, requested).next[0] < m
  {
    var S := DownFrom(db, channel, anchor);
    var rows := Page(S, None, PageSize(requested));
    PageContents(S, None, PageSize(requested));
    assert rows != [] ==> rows[0] in S;
  }

  lemma LastingIsReached(db: Messages, olds: seq<Messages>, news: seq<Messages>, channel: Id, anchor: Id,
      requested: int, v: Visit, m: Id)
    requires Visited(db, olds, news, channel, anchor, requested, v) && Lasting(db, olds, news, channel, m)
    ensures [-m] in Flatten([v.first] + v.older) || [m] in Flatten(v.newer)
  {
    NothingBetween(db, channel, anchor, requested, m);
    if m <= anchor {
      BackwardIsComplete(db, olds, news, channel, anchor, requested, v, m);
    } else {
      ForwardIsComplete(news, channel, Flip(AnchorPage(db, channel, anchor, requested).next), requested, v.newer, m);
    }
  }

  /** From any anchor, deleted or not, paging backward and forward to the end, whatever is posted and
      deleted meanwhile: the channel is laid out in strictly increasing id order, so no message appears
      twice, and every message shown throughout appears. */
  lemma AnchoredReadingIsExact(db: Messages, olds: seq<Messages>, news: seq<Messages>, channel: Id, anchor: Id,
      requested: int, v: Visit)
    requires Visited(db, olds, news, channel, anchor, requested, v)
    ensures var back := Flatten([v.first] + v.older);
      AllSingle(back) && Sorted(Reversed(back) + Flatten(v.newer))
  {
    var back, ahead := Flatten([v.first] + v.older), Flatten(v.newer);
    BackwardFromAnchor(db, olds, news, channel, anchor, requested, v);
    BackSnapshotsAreSingle(db, olds, channel, anchor);
    WalkOfSingles(BackSnapshots(db, olds, channel, anchor), [v.first] + v.older, None, PageSize(requested));
    NextIsTheTop(db, olds, news, channel, anchor, requested, v);
    var token := AnchorPage(db, channel, anchor, requested).next;
    ForwardIsAhead(news, channel, Flip(token), requested, v.newer);
    JoinHalves(back, ahead, -token[0]);
  }

  lemma AnchoredReadingIsComplete(db: Messages, olds: seq<Messages>, news: seq<Messages>, channel: Id, anchor: Id,
      requested: int, v: Visit, m: Id)
    requires Visited(db, olds, news, channel, anchor, requested, v) && Lasting(db, olds, news, channel, m)
    ensures AllSingle(Flatten([v.first] + v.older))
    ensures multiset(Reversed(Flatten([v.first] + v.older)) + Flatten(v.newer))[[m]] == 1
  {
    var back, ahead := Flatten([v.first] + v.older), Flatten(v.newer);
    AnchoredReadingIsExact(db, olds, news, channel, anchor, requested, v);
    LastingIsReached(db, olds, news, channel, anchor, requested, v, m);
    InReversed(back, ahead, m);
    SortedHoldsEachOnce(Reversed(back) + ahead, [m]);
  }

  // ----- In a quiet channel the visit ends -----

  lemma {:induction false} BackwardEnds(db: Messages, channel: Id, before: Key, requested: int)
    returns (dbs: seq<Messages>, pages: seq<seq<Key>>)
    ensures AllSame(dbs, db) && Backward(dbs, channel, before, requested, pages)
    decreases |Beyond(Down(db, channel), Some(before))|
  {
    var r := OlderPage(db, channel, before, requested);
    if r.previous.None? {
      dbs, pages := [db], [r.rows];
    } else {
      BeyondShrinks(Down(db, channel), Some(before), PageSize(requested));
      var someDbs, somePages := BackwardEnds(db, channel, r.previous.value, requested);
      dbs, pages := [db] + someDbs, [r.rows] + somePages;
      assert pages[1..] == somePages && dbs[1..] == someDbs;
    }
  }

  lemma {:induction false} ForwardEnds(db: Messages, channel: Id, after: Key, requested: int)
    returns (dbs: seq<Messages>, pages: seq<seq<Key>>)
    ensures AllSame(dbs, db) && Forward(dbs, channel, after, requested, pages)
    decreases |Beyond(Up(db, channel), Some(after))|
  {
    var rows := NewerPage(db, channel, after, requested);
    if rows == [] {
      dbs, pages := [db], [rows];
    } else {
      BeyondShrinks(Up(db, channel), Some(after), PageSize(requested));
      var someDbs, somePages := ForwardEnds(db, channel, Last(rows), requested);
      dbs, pages := [db] + someDbs, [rows] + somePages;
      assert pages[1..] == somePages && dbs[1..] == someDbs;
    }
  }

  lemma NextIsAToken(db: Messages, channel: Id, anchor: Id, requested: int)
    ensures |AnchorPage(db, channel, anchor, requested).next| == 1
  {
    var S := DownFrom(db, channel, anchor);
    PageContents(S, None, PageSize(requested));
    assert forall k :: k in S ==> |k| == 1;
  }

  /** While nobody posts or deletes, reading from any anchor comes to an end. */
  lemma QuietVisitEnds(db: Messages, channel: Id, anchor: Id, requested: int)
    returns (olds: seq<Messages>, news: seq<Messages>, v: Visit)
    ensures AllSame(olds, db) && AllSame(news, db) && Visited(db, olds, news, channel, anchor, requested, v)
  {
    var r := AnchorPage(db, channel, anchor, requested);
    NextIsAToken(db, channel, anchor, requested);
    var older: seq<seq<Key>> := [];
    olds := [];
    if r.previous.Some? {
      olds, older := BackwardEnds(db, channel, r.previous.value, requested);
    }
    var newer;
    news, newer := ForwardEnds(db, channel, Flip(r.next), requested);
    v := Visit(r.rows, older, newer);
  }

  // ----- The table updated in place -----

  class MessageTable {
    var rows: Messages

    constructor ()
      ensures rows == map[]
    {
      rows := map[];
    }

    method CreateMessage(m: Id, channel: Id, reply: bool)
      requires m !in rows  // uuidv7() is fresh
      modifies this
      ensures rows == old(rows)[m := Message(channel, reply, false)]
      ensures forall c, x :: Shown(rows, c, x) <==> Shown(old(rows), c, x) || (x == m && c == channel && !reply)
    {
      rows := rows[m := Message(channel, reply, false)];
    }

    /** A deleted message is shown nowhere, and nothing else changes. */
    method SoftDeleteMessage(m: Id) returns (row: bool)
      modifies this
      ensures row <==> m in old(rows)
      ensures rows.Keys == old(rows).Keys
      ensures forall c, x :: Shown(rows, c, x) <==> Shown(old(rows), c, x) && x != m
    {
      row := m in rows;
      if row {
        rows := rows[m := rows[m].(deleted := true)];
      }
    }
  }
}
