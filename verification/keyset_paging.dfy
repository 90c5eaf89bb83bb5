/** Keyset ("cursor") paging over a table that other sessions change between the pages.

    A snapshot is the set of sort keys a page query sees. A page is `WHERE key > cursor ORDER BY
    key LIMIT n`, and the next cursor is the key of the last row of the page. */
module KeysetPaging {
  import opened Prelude
  import opened Lexicographic

  /** `WHERE $cursor IS NULL OR key > $cursor`. */
  ghost function Beyond(S: set<Key>, after: Option<Key>): set<Key> {
    if after.None? then S else set k | k in S && Less(after.value, k)
  }

  /** `... ORDER BY key LIMIT limit`. */
  ghost function Page(S: set<Key>, after: Option<Key>, limit: nat): seq<Key> {
    var all := Sort(Beyond(S, after));
    if |all| <= limit then all else all[..limit]
  }

  /** Fetching one row more tells whether there is more, and does not change the page. */
  lemma OneRowMore(S: set<Key>, after: Option<Key>, limit: nat)
    ensures var (page, longer) := (Page(S, after, limit), Page(S, after, limit + 1));
      && (|longer| > limit <==> |Beyond(S, after)| > limit)
      && page == if |longer| > limit then longer[..limit] else longer
  {
    var all := Sort(Beyond(S, after));
    if |all| > limit + 1 { assert all[..limit + 1][..limit] == all[..limit]; }
  }

  function Last(page: seq<Key>): Key
    requires page != []
  {
    page[|page| - 1]
  }

  function Flatten(pages: seq<seq<Key>>): seq<Key> {
    if pages == [] then [] else pages[0] + Flatten(pages[1..])
  }

  /** `pages` are the pages of one walk, page i reading snapshot `snaps[i]`; the snapshots are
      unrelated, so anything may have happened between two pages. The walk may stop only at a page
      that leaves nothing beyond it. */
  ghost predicate FullWalk(snaps: seq<set<Key>>, pages: seq<seq<Key>>, after: Option<Key>, limit: nat) {
    && |snaps| == |pages| > 0
    && pages[0] == Page(snaps[0], after, limit)
    && (if |pages| == 1 then |Beyond(snaps[0], after)| <= limit
        else pages[0] != [] && FullWalk(snaps[1..], pages[1..], Some(Last(pages[0])), limit))
  }

  lemma FullWalkOfOne(S: set<Key>, pages: seq<seq<Key>>, after: Option<Key>, limit: nat)
    requires |pages| == 1 && pages[0] == Page(S, after, limit) && |Beyond(S, after)| <= limit
    ensures FullWalk([S], pages, after, limit)
  {
  }

  lemma FullWalkGrows(S: set<Key>, rest: seq<set<Key>>, pages: seq<seq<Key>>, after: Option<Key>, limit: nat)
    requires |pages| > 1 && pages[0] == Page(S, after, limit) && pages[0] != []
    requires FullWalk(rest, pages[1..], Some(Last(pages[0])), limit)
    ensures FullWalk([S] + rest, pages, after, limit)
  {
    assert ([S] + rest)[1..] == rest;
  }

  ghost predicate InEvery(k: Key, snaps: seq<set<Key>>) {
    forall i :: 0 <= i < |snaps| ==> k in snaps[i]
  }

  ghost predicate IsAfter(k: Key, after: Option<Key>) {
    after.Some? ==> Less(after.value, k)
  }

  /** A page holds keys of its snapshot beyond the cursor, in order, and every such key up to its
      last row; a page shorter than the remainder is full. */
  lemma PageContents(S: set<Key>, after: Option<Key>, limit: nat)
    ensures var p := Page(S, after, limit);
      && Sorted(p)
      && |p| == Min(limit, |Beyond(S, after)|)
      && (forall k :: k in p ==> k in S && IsAfter(k, after))
      && (|Beyond(S, after)| <= limit ==> Elements(p) == Beyond(S, after))
      && (p != [] ==> forall k :: k in Beyond(S, after) && k !in p ==> Less(Last(p), k))
  {
    var all := Sort(Beyond(S, after));
    var p := Page(S, after, limit);
    assert forall k :: k in p ==> k in Elements(all);
    if p != [] {
      forall k | k in Beyond(S, after) && k !in p
        ensures Less(Last(p), k)
      {
        assert k in Elements(all);
        PrefixIsBelow(all, p, k);
      }
    }
  }

  lemma PrefixIsBelow(all: seq<Key>, p: seq<Key>, k: Key)
    requires Sorted(all) && p <= all && p != [] && k in all && k !in p
    ensures Less(Last(p), k)
  {
    var j :| 0 <= j < |all| && all[j] == k;
    assert forall i :: 0 <= i < |p| ==> all[i] == p[i] && p[i] in p;
    assert j >= |p|;
  }

  /** The walk returns keys in strictly increasing order, all beyond where it started. */
  lemma {:induction false} WalkIsSorted(snaps: seq<set<Key>>, pages: seq<seq<Key>>, after: Option<Key>, limit: nat)
    requires FullWalk(snaps, pages, after, limit)
    ensures Sorted(Flatten(pages))
    ensures forall k :: k in Flatten(pages) ==> IsAfter(k, after)
    decreases |pages|
  {
    PageContents(snaps[0], after, limit);
    var head, rest := pages[0], Flatten(pages[1..]);
    if |pages| == 1 {
      assert rest == [] && Flatten(pages) == head;
    } else {
      WalkIsSorted(snaps[1..], pages[1..], Some(Last(head)), limit);
      PageThenRest(head, rest, after);
    }
  }

  lemma PageThenRest(head: seq<Key>, rest: seq<Key>, after: Option<Key>)
    requires Sorted(head) && Sorted(rest) && head != []
    requires forall k :: k in head ==> IsAfter(k, after)
    requires forall k :: k in rest ==> IsAfter(k, Some(Last(head)))
    ensures Sorted(head + rest)
    ensures forall k :: k in head + rest ==> IsAfter(k, after)
  {
    var last := Last(head);
    forall x, y | x in head && y in rest
      ensures Less(x, y)
    {
      assert IsAfter(y, Some(last));
      LastIsMost(head, x);
      if x != last { LessIsTransitive(x, last, y); }
    }
    ConcatSorted(head, rest);
    forall k | k in rest
      ensures IsAfter(k, after)
    {
      assert last in head && IsAfter(k, Some(last));
      if after.Some? { LessIsTransitive(after.value, last, k); }
    }
  }

  lemma LastIsMost(head: seq<Key>, x: Key)
    requires Sorted(head) && x in head
    ensures x == Last(head) || Less(x, Last(head))
  {
    var i :| 0 <= i < |head| && head[i] == x;
  }

  /** Each row returned was there when its page was read. */
  ghost predicate HasSource(snaps: seq<set<Key>>, pages: seq<seq<Key>>, k: Key)
    requires |snaps| == |pages|
  {
    exists i :: 0 <= i < |pages| && k in pages[i] && k in snaps[i]
  }

  lemma {:induction false} WalkHasSources(snaps: seq<set<Key>>, pages: seq<seq<Key>>, after: Option<Key>,
      limit: nat, k: Key)
    requires FullWalk(snaps, pages, after, limit) && k in Flatten(pages)
    ensures HasSource(snaps, pages, k)
    decreases |pages|
  {
    PageContents(snaps[0], after, limit);
    if k in pages[0] {
      assert k in pages[0] && k in snaps[0];
    } else {
      assert k in Flatten(pages[1..]);
      WalkHasSources(snaps[1..], pages[1..], Some(Last(pages[0])), limit, k);
      var i :| 0 <= i < |pages[1..]| && k in pages[1..][i] && k in snaps[1..][i];
      assert k in pages[i + 1] && k in snaps[i + 1];
    }
  }

  /** A key that was there for every page is returned. */
  lemma {:induction false} WalkIsComplete(snaps: seq<set<Key>>, pages: seq<seq<Key>>, after: Option<Key>,
      limit: nat, k: Key)
    requires FullWalk(snaps, pages, after, limit) && IsAfter(k, after) && InEvery(k, snaps)
    ensures k in Flatten(pages)
    decreases |pages|
  {
    PageContents(snaps[0], after, limit);
    assert k in snaps[0] && k in Beyond(snaps[0], after);
    if k !in pages[0] {
      assert |pages| > 1;
      assert InEvery(k, snaps[1..]);
      WalkIsComplete(snaps[1..], pages[1..], Some(Last(pages[0])), limit, k);
    }
  }

  /** Whatever the other sessions did: the walk returns keys in strictly increasing order (so none
      twice), each row was there when its page was read, and a key that was there for every page is
      returned. */
  lemma WalkIsExact(snaps: seq<set<Key>>, pages: seq<seq<Key>>, after: Option<Key>, limit: nat)
    requires FullWalk(snaps, pages, after, limit)
    ensures Sorted(Flatten(pages))
    ensures forall k :: k in Flatten(pages) ==> IsAfter(k, after) && HasSource(snaps, pages, k)
    ensures forall k :: IsAfter(k, after) && InEvery(k, snaps) ==> k in Flatten(pages)
  {
    WalkIsSorted(snaps, pages, after, limit);
    forall k | k in Flatten(pages)
      ensures HasSource(snaps, pages, k)
    {
      WalkHasSources(snaps, pages, after, limit, k);
    }
    forall k | IsAfter(k, after) && InEvery(k, snaps)
      ensures k in Flatten(pages)
    {
      WalkIsComplete(snaps, pages, after, limit, k);
    }
  }

  /** Nobody changed the table between the pages. */
  ghost predicate AllSame<T>(snaps: seq<T>, S: T) {
    forall i :: 0 <= i < |snaps| ==> snaps[i] == S
  }

  /** On a table nobody changes, any full walk concatenates to the whole sorted remainder. */
  lemma FixedWalkIsTheSortedTable(S: set<Key>, snaps: seq<set<Key>>, pages: seq<seq<Key>>, after: Option<Key>,
      limit: nat)
    requires AllSame(snaps, S) && FullWalk(snaps, pages, after, limit)
    ensures Flatten(pages) == Sort(Beyond(S, after))
  {
    WalkIsExact(snaps, pages, after, limit);
    var all := Flatten(pages);
    forall k | k in Beyond(S, after)
      ensures k in all
    {
      assert InEvery(k, snaps);
    }
    assert Elements(all) == Beyond(S, after);
    SortedIsUnique(all, Sort(Beyond(S, after)));
  }

  /** What lies beyond a page's last row is less than what lay beyond its cursor. */
  lemma BeyondShrinks(S: set<Key>, after: Option<Key>, limit: nat)
    requires Page(S, after, limit) != []
    ensures |Beyond(S, Some(Last(Page(S, after, limit))))| < |Beyond(S, after)|
  {
    var page := Page(S, after, limit);
    PageContents(S, after, limit);
    var last := Last(page);
    assert last in page && IsAfter(last, after);
    LessIsIrreflexive(last);
    forall k | k in Beyond(S, Some(last))
      ensures k in Beyond(S, after) - {last}
    {
      if after.Some? { LessIsTransitive(after.value, last, k); }
    }
    SubsetSize(Beyond(S, Some(last)), Beyond(S, after) - {last});
  }

  /** On a table nobody changes, walking with any limit of at least 1 comes to an end. */
  lemma {:induction false} FixedWalkEnds(S: set<Key>, after: Option<Key>, limit: nat)
    returns (snaps: seq<set<Key>>, pages: seq<seq<Key>>)
    requires limit >= 1
    ensures AllSame(snaps, S) && FullWalk(snaps, pages, after, limit)
    decreases |Beyond(S, after)|
  {
    var page := Page(S, after, limit);
    PageContents(S, after, limit);
    if |Beyond(S, after)| <= limit {
      snaps, pages := [S], [page];
      FullWalkOfOne(S, pages, after, limit);
    } else {
      BeyondShrinks(S, after, limit);
      var someSnaps, somePages := FixedWalkEnds(S, Some(Last(page)), limit);
      snaps, pages := [S] + someSnaps, [page] + somePages;
      assert pages[1..] == somePages;
      FullWalkGrows(S, someSnaps, pages, after, limit);
    }
  }
}
