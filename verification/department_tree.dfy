/** GetDepartmentTree: the recursive query that walks down from the root departments, carrying a path
    and a depth, and lists its rows `ORDER BY path`. */
module DepartmentTree {
  import opened Prelude
  import opened Lexicographic
  import opened DepartmentForest

  /** Copies of row d in the n-th working table: round 0 holds the rows whose parent is NULL, each
      later round joins a row to every copy of its parent. */
  function RoundCopies(t: Parents, d: Id, n: nat): nat
    decreases n
  {
    if d !in t then 0
    else if n == 0 then (if t[d].None? then 1 else 0)
    else if t[d].Some? then RoundCopies(t, t[d].value, n - 1)
    else 0
  }

  /** The `path` column of the row for d in round n: the parent's path with d appended. */
  function Path(t: Parents, d: Id, n: nat): (path: seq<Id>)
    requires RootedAt(t, d, n)
    ensures |path| == n + 1 && path[n] == d
    decreases n
  {
    if n == 0 then [d] else Path(t, t[d].value, n - 1) + [d]
  }

  lemma {:induction false} RoundHoldsTheRooted(t: Parents, d: Id, n: nat)
    ensures RoundCopies(t, d, n) == if RootedAt(t, d, n) then 1 else 0
    decreases n
  {
    if d in t && n > 0 && t[d].Some? {
      RoundHoldsTheRooted(t, t[d].value, n - 1);
    }
  }

  lemma RootDistanceIsUnique(t: Parents, d: Id, m: nat, n: nat)
    requires RootedAt(t, d, m) && RootedAt(t, d, n)
    ensures m == n
  {
    if m < n { RootedHasAnEnd(t, d, m, n); }
    if n < m { RootedHasAnEnd(t, d, n, m); }
  }

  /** The `depth` column: the one round that holds d. */
  ghost function Depth(t: Parents, d: Id): (n: nat)
    requires HasRoot(t, d)
    ensures RootedAt(t, d, n)
  {
    var n: nat :| RootedAt(t, d, n);
    n
  }

  ghost function PathOf(t: Parents, d: Id): (path: seq<Id>)
    requires HasRoot(t, d)
    ensures |path| == Depth(t, d) + 1 && path[|path| - 1] == d
  {
    Path(t, d, Depth(t, d))
  }

  /** A department below a root is produced in exactly one round, and once. */
  lemma ListedOnce(t: Parents, d: Id, n: nat)
    requires HasRoot(t, d)
    ensures RoundCopies(t, d, n) == if n == Depth(t, d) then 1 else 0
  {
    RoundHoldsTheRooted(t, d, n);
    if RootedAt(t, d, n) { RootDistanceIsUnique(t, d, n, Depth(t, d)); }
  }

  ghost predicate Listed(t: Parents, d: Id) {
    exists n: nat :: RoundCopies(t, d, n) > 0
  }

  /** A department caught on a cycle is in no round, so the listing is complete exactly when the
      hierarchy is a forest; the recursion itself ends either way. */
  lemma ListingIsCompleteIffForest(t: Parents)
    ensures Forest(t) <==> forall d :: d in t ==> Listed(t, d)
  {
    forall d | d in t
      ensures Listed(t, d) <==> HasRoot(t, d)
    {
      if Listed(t, d) {
        var n: nat :| RoundCopies(t, d, n) > 0;
        RoundHoldsTheRooted(t, d, n);
      }
      if HasRoot(t, d) {
        ListedOnce(t, d, Depth(t, d));
      }
    }
  }

  /** Element k of a path is the ancestor `n - k` steps up: the path is the chain from the root. */
  lemma {:induction false} PathIsTheChain(t: Parents, d: Id, n: nat, k: nat)
    requires RootedAt(t, d, n) && k <= n
    ensures Up(t, d, n - k) == Some(Path(t, d, n)[k])
    decreases n
  {
    if k < n {
      PathIsTheChain(t, t[d].value, n - 1, k);
    }
  }

  /** The path of an ancestor begins the path of everything below it. */
  lemma {:induction false} AncestorPathIsPrefix(t: Parents, a: Id, x: Id, n: nat, steps: nat)
    requires RootedAt(t, x, n) && Up(t, x, steps) == Some(a)
    ensures steps <= n && RootedAt(t, a, n - steps) && Path(t, a, n - steps) <= Path(t, x, n)
    decreases steps
  {
    if steps > 0 {
      AncestorPathIsPrefix(t, a, t[x].value, n - 1, steps - 1);
    }
  }

  /** A path begins another exactly when its department is the other's or stands above it. */
  lemma PrefixMeansAbove(t: Parents, a: Id, x: Id)
    requires HasRoot(t, a) && HasRoot(t, x)
    ensures PathOf(t, a) <= PathOf(t, x) <==> Above(t, a, x)
  {
    var m, n := Depth(t, a), Depth(t, x);
    if PathOf(t, a) <= PathOf(t, x) {
      PathIsTheChain(t, x, n, m);
      assert PathOf(t, x)[m] == PathOf(t, a)[m] == a;
    }
    if Above(t, a, x) {
      var steps: nat :| Up(t, x, steps) == Some(a);
      AncestorPathIsPrefix(t, a, x, n, steps);
      RootDistanceIsUnique(t, a, n - steps, m);
    }
  }

  // ----- ORDER BY path -----

  ghost function Paths(t: Parents): set<Key>
    requires Forest(t)
  {
    set d | d in t :: PathOf(t, d)
  }

  /** The result of the query, each row shown by its path; its id is the path's last element. */
  ghost function Listing(t: Parents): seq<Key>
    requires Forest(t)
  {
    Sort(Paths(t))
  }

  ghost function PathsOf(t: Parents, ds: set<Id>): set<Key>
    requires Forest(t) && ds <= t.Keys
  {
    set d | d in ds :: PathOf(t, d)
  }

  lemma OneMorePath(t: Parents, ds: set<Id>, d: Id)
    requires Forest(t) && ds <= t.Keys && d in ds
    ensures PathsOf(t, ds) == PathsOf(t, ds - {d}) + {PathOf(t, d)}
    ensures PathOf(t, d) !in PathsOf(t, ds - {d})
  {
    forall x | x in ds - {d}
      ensures PathOf(t, x) != PathOf(t, d)
    {
      assert PathOf(t, x)[|PathOf(t, x)| - 1] == x && PathOf(t, d)[|PathOf(t, d)| - 1] == d;
    }
  }

  lemma {:induction false} PathsCountDepartments(t: Parents, ds: set<Id>)
    requires Forest(t) && ds <= t.Keys
    ensures |PathsOf(t, ds)| == |ds|
    decreases |ds|
  {
    if ds == {} {
      assert PathsOf(t, ds) == {};
    } else {
      var d :| d in ds;
      PathsCountDepartments(t, ds - {d});
      OneMorePath(t, ds, d);
    }
  }

  /** The department of row i. */
  ghost function IdAt(t: Parents, i: nat): (d: Id)
    requires Forest(t) && i < |Listing(t)|
    ensures d in t && Listing(t)[i] == PathOf(t, d)
  {
    assert Listing(t)[i] in Elements(Listing(t));
    var d :| d in t && PathOf(t, d) == Listing(t)[i];
    d
  }

  /** The row of department d. */
  ghost function RowOf(t: Parents, d: Id): (i: nat)
    requires Forest(t) && d in t
    ensures i < |Listing(t)| && Listing(t)[i] == PathOf(t, d)
  {
    assert PathOf(t, d) in Elements(Listing(t));
    var i: nat :| i < |Listing(t)| && Listing(t)[i] == PathOf(t, d);
    i
  }

  /** The listing has one row per department of the organization. */
  lemma ListingCount(t: Parents)
    requires Forest(t)
    ensures |Listing(t)| == |t|
  {
    PathsCountDepartments(t, t.Keys);
    assert Paths(t) == PathsOf(t, t.Keys);
  }

  /** Rows and departments correspond one to one: no department is missing or listed twice. */
  lemma RowsMatchDepartments(t: Parents, d: Id, i: nat)
    requires Forest(t) && d in t && i < |Listing(t)|
    ensures RowOf(t, d) == i <==> IdAt(t, i) == d
  {
    if IdAt(t, i) == d {
      SortedHasNoRepeat(Listing(t), RowOf(t, d), i);
    }
  }

  ghost function Subtree(t: Parents, d: Id): set<Id> {
    set x | x in t && Above(t, d, x)
  }

  /** The rows of d's subtree, by position in the listing. */
  ghost function Block(t: Parents, d: Id): set<nat>
    requires Forest(t) && d in t
  {
    set j: nat | j < |Listing(t)| && PathOf(t, d) <= Listing(t)[j]
  }

  lemma {:induction false} PositionsCount(s: seq<Key>, ks: set<Key>)
    requires Sorted(s) && ks <= Elements(s)
    ensures |set j: nat | j < |s| && s[j] in ks| == |ks|
    decreases |ks|
  {
    if ks == {} {
      assert (set j: nat | j < |s| && s[j] in ks) == {};
    } else {
      var k :| k in ks;
      PositionsCount(s, ks - {k});
      var i :| 0 <= i < |s| && s[i] == k;
      forall j: nat | j < |s| && s[j] == k
        ensures j == i
      {
        SortedHasNoRepeat(s, i, j);
      }
      assert (set j: nat | j < |s| && s[j] in ks) == (set j: nat | j < |s| && s[j] in ks - {k}) + {i as nat};
    }
  }

  /** A set of positions without gaps that starts at `first` is an interval of its size. */
  lemma {:induction false} GaplessIsInterval(ps: set<nat>, first: nat)
    requires first in ps && forall p :: p in ps ==> first <= p
    requires forall p: nat, q: nat, r: nat :: p in ps && r in ps && p < q < r ==> q in ps
    ensures forall q: nat :: q in ps <==> first <= q < first + |ps|
    decreases |ps|
  {
    if ps != {first} {
      var rest := ps - {first};
      var r: nat :| r in ps && r != first;
      assert first + 1 in rest by {
        if r > first + 1 { assert first + 1 in ps; }
      }
      GaplessIsInterval(rest, first + 1);
      forall q: nat
        ensures q in ps <==> first <= q < first + |ps|
      {
        assert q in rest <==> q in ps && q != first;
      }
    }
  }

  lemma BlockRow(t: Parents, d: Id, j: nat)
    requires Forest(t) && d in t && j < |Listing(t)|
    ensures PathOf(t, d) <= Listing(t)[j] <==> IdAt(t, j) in Subtree(t, d)
    ensures PathOf(t, d) <= Listing(t)[j] <==> Listing(t)[j] in PathsOf(t, Subtree(t, d))
  {
    PrefixMeansAbove(t, d, IdAt(t, j));
    if Listing(t)[j] in PathsOf(t, Subtree(t, d)) {
      var y :| y in Subtree(t, d) && PathOf(t, y) == Listing(t)[j];
      PrefixMeansAbove(t, d, y);
    }
  }

  lemma BlockIsTheSubtreeRows(t: Parents, d: Id)
    requires Forest(t) && d in t
    ensures Block(t, d) == set j: nat | j < |Listing(t)| && Listing(t)[j] in PathsOf(t, Subtree(t, d))
  {
    forall j: nat | j < |Listing(t)|
      ensures Listing(t)[j] in PathsOf(t, Subtree(t, d)) <==> PathOf(t, d) <= Listing(t)[j]
    {
      BlockRow(t, d, j);
    }
  }

  lemma BlockSize(t: Parents, d: Id)
    requires Forest(t) && d in t
    ensures |Block(t, d)| == |Subtree(t, d)|
  {
    PathsCountDepartments(t, Subtree(t, d));
    assert PathsOf(t, Subtree(t, d)) <= Paths(t) == Elements(Listing(t));
    PositionsCount(Listing(t), PathsOf(t, Subtree(t, d)));
    BlockIsTheSubtreeRows(t, d);
  }

  /** Nothing of a subtree sorts before its top department, and nothing foreign sorts into it. */
  lemma BlockIsGapless(t: Parents, d: Id)
    requires Forest(t) && d in t
    ensures RowOf(t, d) in Block(t, d) && forall j :: j in Block(t, d) ==> RowOf(t, d) <= j
    ensures forall a: nat, b: nat, c: nat ::
      a in Block(t, d) && c in Block(t, d) && a < b < c ==> b in Block(t, d)
  {
    var s, p, i := Listing(t), PathOf(t, d), RowOf(t, d);
    forall j | j in Block(t, d)
      ensures i <= j
    {
      LessIsIrreflexive(p);
      if j < i && p != s[j] {
        PrefixIsLess(p, s[j]);
        LessIsTransitive(p, s[j], p);
      }
    }
    forall a: nat, b: nat, c: nat | a in Block(t, d) && c in Block(t, d) && a < b < c
      ensures b in Block(t, d)
    {
      PrefixIsConvex(p, s[a], s[b], s[c]);
    }
  }

  /** Ordering by path is a preorder: a department comes right before the rest of its subtree, and the
      subtree fills the next rows, as many as it has departments, with nothing in between. */
  lemma ListingIsPreorder(t: Parents, d: Id, j: nat)
    requires Forest(t) && d in t && j < |Listing(t)|
    ensures Above(t, d, IdAt(t, j)) <==> RowOf(t, d) <= j < RowOf(t, d) + |Subtree(t, d)|
  {
    BlockIsGapless(t, d);
    GaplessIsInterval(Block(t, d), RowOf(t, d));
    BlockSize(t, d);
    BlockRow(t, d, j);
    assert j in Block(t, d) <==> PathOf(t, d) <= Listing(t)[j];
    assert IdAt(t, j) in Subtree(t, d) <==> Above(t, d, IdAt(t, j));
  }

  /** Parents come before their children. */
  lemma ParentComesFirst(t: Parents, d: Id)
    requires Forest(t) && d in t && t[d].Some?
    ensures t[d].value in t && RowOf(t, t[d].value) < RowOf(t, d)
  {
    ForestIsAcyclic(t);
    var p := t[d].value;
    assert Up(t, d, 1) == Some(p);
    RowsMatchDepartments(t, d, RowOf(t, d));
    ListingIsPreorder(t, p, RowOf(t, d));
    if RowOf(t, p) == RowOf(t, d) {
      RowsMatchDepartments(t, p, RowOf(t, d));
    }
  }
}
