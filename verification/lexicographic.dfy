/** The one order behind `ORDER BY (a, b, c)`, row comparison, array comparison and Go string
    comparison: lexicographic, a proper prefix first. */
module Lexicographic {
  import opened Prelude

  type Key = seq<int>

  predicate Less(a: Key, b: Key) {
    |b| > 0 && (|a| == 0 || a[0] < b[0] || (a[0] == b[0] && Less(a[1..], b[1..])))
  }

  lemma {:induction false} LessIsIrreflexive(a: Key)
    ensures !Less(a, a)
  {
    if a != [] {
      LessIsIrreflexive(a[1..]);
    }
  }

  lemma {:induction false} LessIsTransitive(a: Key, b: Key, c: Key)
    requires Less(a, b) && Less(b, c)
    ensures Less(a, c)
  {
    if a != [] && a[0] == b[0] == c[0] {
      LessIsTransitive(a[1..], b[1..], c[1..]);
    }
  }

  lemma {:induction false} LessIsTotal(a: Key, b: Key)
    ensures a == b || Less(a, b) || Less(b, a)
  {
    if a != [] && b != [] && a[0] == b[0] {
      LessIsTotal(a[1..], b[1..]);
      assert a == [a[0]] + a[1..] && b == [b[0]] + b[1..];
    }
  }

  /** A proper prefix sorts before everything it begins. */
  lemma {:induction false} PrefixIsLess(p: Key, a: Key)
    requires p < a
    ensures Less(p, a)
  {
    if p != [] {
      PrefixIsLess(p[1..], a[1..]);
    }
  }

  /** The keys with a common prefix form an interval: nothing else sorts between two of them. */
  lemma {:induction false} PrefixIsConvex(p: Key, a: Key, b: Key, c: Key)
    requires p <= a && p <= c && Less(a, b) && Less(b, c)
    ensures p <= b
  {
    if p != [] {
      assert a[0] == b[0] == c[0];
      PrefixIsConvex(p[1..], a[1..], b[1..], c[1..]);
      assert p == [p[0]] + p[1..] && b == [b[0]] + b[1..];
    }
  }

  predicate Sorted(s: seq<Key>) {
    forall i, j :: 0 <= i < j < |s| ==> Less(s[i], s[j])
  }

  function Elements(s: seq<Key>): set<Key> {
    set k | k in s
  }

  ghost predicate IsLeast(S: set<Key>, m: Key) {
    m in S && forall k :: k in S ==> k == m || Less(m, k)
  }

  lemma LeastOfOneMore(S: set<Key>, x: Key, m: Key)
    requires x in S && IsLeast(S - {x}, m)
    ensures IsLeast(S, if Less(x, m) then x else m)
  {
    LessIsTotal(m, x);
    if Less(x, m) {
      forall k | k in S
        ensures k == x || Less(x, k)
      {
        if k != x && k != m { LessIsTransitive(x, m, k); }
      }
    }
  }

  lemma {:induction false} LeastExists(S: set<Key>)
    requires S != {}
    ensures exists m :: IsLeast(S, m)
    decreases |S|
  {
    var x :| x in S;
    if S == {x} {
      assert IsLeast(S, x);
    } else {
      LeastExists(S - {x});
      var m :| IsLeast(S - {x}, m);
      LeastOfOneMore(S, x, m);
    }
  }

  /** `ORDER BY key LIMIT 1`. */
  ghost function Least(S: set<Key>): (m: Key)
    requires S != {}
    ensures IsLeast(S, m)
  {
    LeastExists(S);
    var m :| IsLeast(S, m);
    m
  }

  lemma ConsSorted(m: Key, rest: seq<Key>)
    requires Sorted(rest) && forall k :: k in Elements(rest) ==> Less(m, k)
    ensures Sorted([m] + rest) && Elements([m] + rest) == {m} + Elements(rest)
  {
    assert forall i :: 0 <= i < |rest| ==> rest[i] in Elements(rest);
    forall k
      ensures k in [m] + rest <==> k == m || k in rest
    {
    }
  }

  /** `ORDER BY key` over rows whose keys are distinct. */
  ghost function Sort(S: set<Key>): (s: seq<Key>)
    ensures Sorted(s) && Elements(s) == S && |s| == |S|
    decreases |S|
  {
    if S == {} then [] else
      var m := Least(S);
      var rest := Sort(S - {m});
      ConsSorted(m, rest);
      [m] + rest
  }

  /** A sorted sequence is determined by its elements, so `ORDER BY` a key leaves no choice. */
  lemma {:induction false} SortedIsUnique(a: seq<Key>, b: seq<Key>)
    requires Sorted(a) && Sorted(b) && Elements(a) == Elements(b)
    ensures a == b
  {
    assert b != [] ==> b[0] in Elements(b);
    assert a != [] ==> a[0] in Elements(a);
    if a != [] {
      SortedHeadIsLeast(a);
      SortedHeadIsLeast(b);
      if a[0] != b[0] {
        LessIsTransitive(a[0], b[0], a[0]);
        LessIsIrreflexive(a[0]);
      }
      TailElements(a);
      TailElements(b);
      SortedIsUnique(a[1..], b[1..]);
      assert a == [a[0]] + a[1..] && b == [b[0]] + b[1..];
    }
  }

  lemma SortedHeadIsLeast(a: seq<Key>)
    requires Sorted(a) && a != []
    ensures forall k :: k in Elements(a) ==> k == a[0] || Less(a[0], k)
  {
    forall k | k in Elements(a)
      ensures k == a[0] || Less(a[0], k)
    {
      var i :| 0 <= i < |a| && a[i] == k;
    }
  }

  lemma TailElements(a: seq<Key>)
    requires Sorted(a) && a != []
    ensures Elements(a[1..]) == Elements(a) - {a[0]}
  {
    LessIsIrreflexive(a[0]);
    assert forall k :: k in a <==> k == a[0] || k in a[1..];
  }

  /** Joining two sorted runs, the first entirely below the second, is sorted. */
  lemma ConcatSorted(a: seq<Key>, b: seq<Key>)
    requires Sorted(a) && Sorted(b)
    requires forall x, y :: x in a && y in b ==> Less(x, y)
    ensures Sorted(a + b)
  {
    forall i, j | 0 <= i < j < |a + b|
      ensures Less((a + b)[i], (a + b)[j])
    {
      if i < |a| <= j {
        assert a[i] in a && b[j - |a|] in b;
      }
    }
  }

  /** In a sorted sequence each key stands at exactly one position. */
  lemma SortedHasNoRepeat(a: seq<Key>, i: nat, j: nat)
    requires Sorted(a) && i < |a| && j < |a| && a[i] == a[j]
    ensures i == j
  {
    LessIsIrreflexive(a[i]);
  }

  lemma {:induction false} SortedHoldsEachOnce(a: seq<Key>, k: Key)
    requires Sorted(a)
    ensures multiset(a)[k] == if k in a then 1 else 0
  {
    if a != [] {
      SortedHoldsEachOnce(a[1..], k);
      LessIsIrreflexive(a[0]);
      assert a == [a[0]] + a[1..];
    }
  }
}
