/** Counting the rows of a table that satisfy a condition: `SELECT COUNT(*) FROM m WHERE p`. */
module Tally {

  ghost function Matching<K, V>(m: map<K, V>, p: V -> bool): set<K> {
    set k | k in m && p(m[k])
  }

  ghost function Count<K, V>(m: map<K, V>, p: V -> bool): nat {
    |Matching(m, p)|
  }

  /** Inserting or replacing a row changes the count by what the row gains or loses. */
  lemma CountWrite<K, V>(m: map<K, V>, k: K, v: V, p: V -> bool)
    ensures Count(m[k := v], p) == Count(m, p) + (if k in m && p(m[k]) then -1 else 0) + (if p(v) then 1 else 0)
  {
    var rest := Matching(m, p) - {k};
    assert Matching(m[k := v], p) == if p(v) then rest + {k} else rest;
    assert Matching(m, p) == if k in m && p(m[k]) then rest + {k} else rest;
  }

  lemma CountDelete<K, V>(m: map<K, V>, k: K, p: V -> bool)
    ensures Count(m - {k}, p) == Count(m, p) + (if k in m && p(m[k]) then -1 else 0)
  {
    var rest := Matching(m, p) - {k};
    assert Matching(m - {k}, p) == rest;
    assert Matching(m, p) == if k in m && p(m[k]) then rest + {k} else rest;
  }

  /** Deleting rows none of which match leaves the count alone. */
  lemma CountDeleteOthers<K, V>(m: map<K, V>, gone: set<K>, p: V -> bool)
    requires forall k :: k in m && k in gone ==> !p(m[k])
    ensures Count(m - gone, p) == Count(m, p)
  {
    assert Matching(m - gone, p) == Matching(m, p);
  }

  /** Rewriting rows in a way the condition cannot see leaves the count alone. */
  lemma CountInsensitive<K, V>(m: map<K, V>, n: map<K, V>, p: V -> bool)
    requires m.Keys == n.Keys && forall k :: k in m ==> (p(m[k]) <==> p(n[k]))
    ensures Count(m, p) == Count(n, p)
  {
    assert Matching(m, p) == Matching(n, p);
  }

  lemma CountZero<K, V>(m: map<K, V>, p: V -> bool)
    ensures Count(m, p) == 0 <==> forall k :: k in m ==> !p(m[k])
  {
    if Count(m, p) == 0 {
      forall k | k in m
        ensures !p(m[k])
      {
        assert k !in Matching(m, p);
      }
    } else {
      var k :| k in Matching(m, p);
    }
  }
}
