/** The SSE connections debug command: collecting instance ids, attaching listener statuses to the rows
    in place, and grouping the rows by instance. Strings that are ordered are sequences of bytes. */
module SseDebug {
  import opened Prelude
  import opened Lexicographic

  /** The listener columns of a row: topic, status, whether registered, consumer status, and the rest. */
  datatype Shown = Shown(topic: Key, listen: string, registered: bool, consumer: string, rest: int)

  datatype Row = Row(connection: int, instance: Key, shown: Shown)

  /** An active_listener row; listener_status is 'active' or 'stale'. */
  datatype Listener = Listener(topic: Key, active: bool, consumer: string, rest: int)

  // ----- sort.Strings -----

  predicate Before(a: Key, b: Key) {
    a == b || Less(a, b)
  }

  function Insert(k: Key, s: seq<Key>): seq<Key> {
    if s == [] || Before(k, s[0]) then [k] + s else [s[0]] + Insert(k, s[1..])
  }

  function SortStrings(s: seq<Key>): seq<Key> {
    if s == [] then [] else Insert(s[0], SortStrings(s[1..]))
  }

  lemma {:induction false} InsertIntoSorted(k: Key, s: seq<Key>)
    requires Sorted(s) && k !in s
    ensures Sorted(Insert(k, s)) && Elements(Insert(k, s)) == Elements(s) + {k}
  {
    if s == [] {
      assert Insert(k, s) == [k];
    } else if Before(k, s[0]) {
      assert forall x :: x in Elements(s) ==> Less(k, x) by {
        SortedHeadIsLeast(s);
        forall x | x in Elements(s)
          ensures Less(k, x)
        {
          if x != s[0] { LessIsTransitive(k, s[0], x); }
        }
      }
      ConsSorted(k, s);
    } else {
      LessIsTotal(k, s[0]);
      InsertIntoSorted(k, s[1..]);
      SortedHeadIsLeast(s);
      TailElements(s);
      assert forall x :: x in Elements(Insert(k, s[1..])) ==> Less(s[0], x);
      ConsSorted(s[0], Insert(k, s[1..]));
    }
  }

  ghost predicate NoRepeat(s: seq<Key>) {
    forall i, j :: 0 <= i < j < |s| ==> s[i] != s[j]
  }

  lemma {:induction false} SortStringsSorts(s: seq<Key>)
    requires NoRepeat(s)
    ensures Sorted(SortStrings(s)) && Elements(SortStrings(s)) == Elements(s)
  {
    if s != [] {
      SortStringsSorts(s[1..]);
      assert s[0] !in Elements(s[1..]);
      InsertIntoSorted(s[0], SortStrings(s[1..]));
      assert Elements(s) == Elements(s[1..]) + {s[0]} by {
        assert s == [s[0]] + s[1..];
      }
    }
  }

  // ----- Collecting the instances -----

  function InstancesOf(rows: seq<Row>): set<Key> {
    set r | r in rows :: r.instance
  }

  lemma OneMoreInstance(rows: seq<Row>, n: nat)
    requires n < |rows|
    ensures InstancesOf(rows[..n + 1]) == InstancesOf(rows[..n]) + {rows[n].instance}
  {
    assert rows[..n + 1] == rows[..n] + [rows[n]];
  }

  /** What the loops have seen and kept. */
  ghost predicate Kept(seen: set<Key>, ids: seq<Key>) {
    NoRepeat(ids) && Elements(ids) == seen
  }

  lemma KeepOneMore(seen: set<Key>, ids: seq<Key>, k: Key)
    requires Kept(seen, ids) && k !in seen
    ensures Kept(seen + {k}, ids + [k])
  {
    assert forall i :: 0 <= i < |ids| ==> ids[i] in Elements(ids);
  }

  method CollectInstanceIDs(rows: seq<Row>, explicit: Key) returns (ids: seq<Key>)
    ensures Sorted(ids)
    ensures Elements(ids) == InstancesOf(rows) + (if explicit != [] then {explicit} else {})
  {
    var seen: set<Key> := {};
    ids := [];
    if explicit != [] {
      seen, ids := {explicit}, [explicit];
    }
    var n := 0;
    assert InstancesOf(rows[..0]) == {};
    while n < |rows|
      invariant 0 <= n <= |rows|
      invariant Kept(seen, ids) && seen == InstancesOf(rows[..n]) + (if explicit != [] then {explicit} else {})
    {
      OneMoreInstance(rows, n);
      if rows[n].instance !in seen {
        KeepOneMore(seen, ids, rows[n].instance);
        seen, ids := seen + {rows[n].instance}, ids + [rows[n].instance];
      }
      n := n + 1;
    }
    assert rows[..n] == rows;
    SortStringsSorts(ids);
    ids := SortStrings(ids);
  }

  // ----- Listener statuses -----

  const BLANK := Shown([], "", false, "", 0)

  /** The default of the Go code; the topic is derived from the instance id. */
  function Missing(topic: Key): Shown {
    Shown(topic, "missing", false, "missing", 0)
  }

  function FromListener(l: Listener): Shown {
    Shown(l.topic, if l.active then "active" else "stale", l.active, l.consumer, l.rest)
  }

  /** One row of requested LEFT JOIN active_listener, with every column COALESCEd. */
  function Joined(listeners: map<Key, Listener>, id: Key): Shown {
    if id in listeners then FromListener(listeners[id]) else BLANK
  }

  /** fetchSSEListenerStatuses: the LEFT JOIN answers for every requested instance, so the fill for
      missing ones finds nothing to fill, and an instance without a listener is shown blank. */
  method FetchStatuses(listeners: map<Key, Listener>, topic: Key -> Key, ids: seq<Key>)
    returns (statuses: map<Key, Shown>)
    ensures statuses.Keys == Elements(ids)
    ensures forall id :: id in ids ==> statuses[id] == Joined(listeners, id)
  {
    statuses := map[];
    var n := 0;
    while n < |ids|
      invariant 0 <= n <= |ids|
      invariant forall id :: id in statuses <==> id in ids[..n]
      invariant forall id :: id in statuses ==> statuses[id] == Joined(listeners, id)
    {
      statuses := statuses[ids[n] := Joined(listeners, ids[n])];
      n := n + 1;
    }
    statuses := FillMissing(statuses, topic, ids);
  }

  /** The loop that gives instances without a status the default. */
  method FillMissing(found: map<Key, Shown>, topic: Key -> Key, ids: seq<Key>) returns (statuses: map<Key, Shown>)
    ensures forall id :: id in statuses <==> id in found || id in ids
    ensures forall id :: id in statuses ==> statuses[id] == if id in found then found[id] else Missing(topic(id))
  {
    statuses := found;
    var n := 0;
    while n < |ids|
      invariant 0 <= n <= |ids|
      invariant forall id :: id in statuses <==> id in found || id in ids[..n]
      invariant forall id :: id in statuses ==> statuses[id] == if id in found then found[id] else Missing(topic(id))
    {
      if ids[n] !in statuses {
        statuses := statuses[ids[n] := Missing(topic(ids[n]))];
      }
      n := n + 1;
    }
  }

  /** What a connection row shows: its instance's status, or the default. */
  function ShownFor(statuses: map<Key, Shown>, topic: Key -> Key, instance: Key): Shown {
    if instance in statuses then statuses[instance] else Missing(topic(instance))
  }

  /** applySSEListenerStatuses: every row gets its own instance's status; nothing else about it changes. */
  method ApplyStatuses(connections: array<Row>, statuses: map<Key, Shown>, topic: Key -> Key)
    modifies connections
    ensures forall i :: 0 <= i < connections.Length ==>
      connections[i] == old(connections[i]).(shown := ShownFor(statuses, topic, old(connections[i]).instance))
  {
    var index := 0;
    while index < connections.Length
      invariant 0 <= index <= connections.Length
      invariant forall i :: 0 <= i < index ==>
        connections[i] == old(connections[i]).(shown := ShownFor(statuses, topic, old(connections[i]).instance))
      invariant forall i :: index <= i < connections.Length ==> connections[i] == old(connections[i])
    {
      var instance := connections[index].instance;
      var shown;
      if instance in statuses {
        shown := statuses[instance];
      } else {
        shown := Missing(topic(instance));
      }
      connections[index] := connections[index].(shown := shown);
      index := index + 1;
    }
  }

  /** What fetchAllSSEListenerStatuses finds for these instances. */
  function Found(listeners: map<Key, Listener>, ids: set<Key>): map<Key, Shown> {
    map id | id in ids && id in listeners :: FromListener(listeners[id])
  }

  lemma LayOneMore(fetched: map<Key, Shown>, listeners: map<Key, Listener>, ids: set<Key>, id: Key)
    requires id in listeners
    ensures fetched + Found(listeners, ids + {id})
         == (fetched + Found(listeners, ids))[id := FromListener(listeners[id])]
  {
  }

  /** The loop that lays the statuses of all listeners over what was fetched. */
  method MergeAll(fetched: map<Key, Shown>, listeners: map<Key, Listener>) returns (statuses: map<Key, Shown>)
    ensures statuses == fetched + Found(listeners, listeners.Keys)
  {
    statuses := fetched;
    var done: set<Key> := {};
    while listeners.Keys - done != {}
      invariant done <= listeners.Keys && statuses == fetched + Found(listeners, done)
      decreases listeners.Keys - done
    {
      var id :| id in listeners.Keys - done;
      LayOneMore(fetched, listeners, done, id);
      statuses, done := statuses[id := FromListener(listeners[id])], done + {id};
    }
  }

  // ----- Grouping -----

  /** The rows of one instance, in their order. */
  function Of(rows: seq<Row>, instance: Key): seq<Row>
    decreases |rows|
  {
    if rows == [] then [] else
      var last := rows[|rows| - 1];
      Of(rows[..|rows| - 1], instance) + if last.instance == instance then [last] else []
  }

  function Everything(order: seq<Key>, rows: seq<Row>): seq<Row>
    decreases |order|
  {
    if order == [] then [] else Everything(order[..|order| - 1], rows) + Of(rows, order[|order| - 1])
  }

  lemma {:induction false} OfCounts(rows: seq<Row>, instance: Key, r: Row)
    ensures multiset(Of(rows, instance))[r] == if r.instance == instance then multiset(rows)[r] else 0
    decreases |rows|
  {
    if rows != [] {
      OfCounts(rows[..|rows| - 1], instance, r);
      assert rows == rows[..|rows| - 1] + [rows[|rows| - 1]];
    }
  }

  lemma {:induction false} EverythingCounts(order: seq<Key>, rows: seq<Row>, r: Row)
    requires NoRepeat(order)
    ensures multiset(Everything(order, rows))[r] == if r.instance in order then multiset(rows)[r] else 0
    decreases |order|
  {
    if order != [] {
      var front, last := order[..|order| - 1], order[|order| - 1];
      EverythingCounts(front, rows, r);
      OfCounts(rows, last, r);
      assert order == front + [last];
    }
  }

  /** Printed instance by instance, every connection appears exactly as often as it was read: once, under
      its own instance. */
  lemma GroupsPartitionTheRows(order: seq<Key>, rows: seq<Row>)
    requires Sorted(order) && InstancesOf(rows) <= Elements(order)
    ensures multiset(Everything(order, rows)) == multiset(rows)
    ensures forall k, r :: r in Of(rows, k) ==> r.instance == k
  {
    forall i, j | 0 <= i < j < |order|
      ensures order[i] != order[j]
    {
      LessIsIrreflexive(order[i]);
    }
    forall r: Row
      ensures multiset(Everything(order, rows))[r] == multiset(rows)[r]
    {
      EverythingCounts(order, rows, r);
      if r in rows { assert r.instance in InstancesOf(rows); }
    }
    forall k, r | r in Of(rows, k)
      ensures r.instance == k
    {
      OfCounts(rows, k, r);
    }
  }

  /** The grouped map: a key for each instance met, holding its rows so far. */
  ghost predicate GroupedSoFar(grouped: map<Key, seq<Row>>, rows: seq<Row>) {
    grouped.Keys == InstancesOf(rows) && forall k :: k in grouped ==> grouped[k] == Of(rows, k)
  }

  lemma {:induction false} NoneOf(rows: seq<Row>, k: Key)
    requires k !in InstancesOf(rows)
    ensures Of(rows, k) == []
    decreases |rows|
  {
    if rows != [] {
      assert rows[|rows| - 1] in rows;
      assert forall r :: r in rows[..|rows| - 1] ==> r in rows;
      NoneOf(rows[..|rows| - 1], k);
    }
  }

  /** The map after one more row. */
  function AddRow(grouped: map<Key, seq<Row>>, r: Row): map<Key, seq<Row>> {
    grouped[r.instance := (if r.instance in grouped then grouped[r.instance] else []) + [r]]
  }

  lemma GroupOneMore(grouped: map<Key, seq<Row>>, rows: seq<Row>, r: Row)
    requires GroupedSoFar(grouped, rows)
    ensures GroupedSoFar(AddRow(grouped, r), rows + [r])
  {
    assert (rows + [r])[..|rows|] == rows;
    OneMoreInstance(rows + [r], |rows|);
    assert (rows + [r])[..|rows| + 1] == rows + [r];
    if r.instance !in grouped { NoneOf(rows, r.instance); }
  }

  method GroupRows(rows: seq<Row>) returns (grouped: map<Key, seq<Row>>)
    ensures GroupedSoFar(grouped, rows)
  {
    grouped := map[];
    var n := 0;
    assert InstancesOf(rows[..0]) == {};
    while n < |rows|
      invariant 0 <= n <= |rows| && GroupedSoFar(grouped, rows[..n])
    {
      GroupOneMore(grouped, rows[..n], rows[n]);
      assert rows[..n + 1] == rows[..n] + [rows[n]];
      grouped := AddRow(grouped, rows[n]);
      n := n + 1;
    }
    assert rows[..n] == rows;
  }

  /** A map's keys walked in any order, those not seen yet appended. */
  method AppendUnseen(seen0: set<Key>, ids: seq<Key>, keys: set<Key>) returns (seen: set<Key>, order: seq<Key>)
    requires Kept(seen0, ids)
    ensures Kept(seen, order) && seen == seen0 + keys
  {
    seen, order := seen0, ids;
    var todo := keys;
    while todo != {}
      invariant Kept(seen, order) && seen + todo == seen0 + keys
      decreases |todo|
    {
      var k :| k in todo;
      todo := todo - {k};
      if k !in seen {
        KeepOneMore(seen, order, k);
        seen, order := seen + {k}, order + [k];
      }
    }
  }

  /** The instances of the connections, then those of the listeners, sorted. */
  method InstanceOrder(fromConnections: set<Key>, fromListeners: set<Key>) returns (order: seq<Key>)
    ensures Sorted(order) && Elements(order) == fromConnections + fromListeners
  {
    var seen: set<Key> := {};
    order := [];
    seen, order := AppendUnseen(seen, order, fromConnections);
    seen, order := AppendUnseen(seen, order, fromListeners);
    SortStringsSorts(order);
    order := SortStrings(order);
  }

  /** The grouping of printSSEConnectionsDebug: the instance order is strictly sorted and is the instances
      of the connections and of the listeners; the groups are a partition of the rows. */
  method Group(rows: seq<Row>, statuses: map<Key, Shown>) returns (order: seq<Key>, grouped: map<Key, seq<Row>>)
    ensures Sorted(order) && Elements(order) == InstancesOf(rows) + statuses.Keys
    ensures GroupedSoFar(grouped, rows)
    ensures multiset(Everything(order, rows)) == multiset(rows)
  {
    grouped := GroupRows(rows);
    order := InstanceOrder(grouped.Keys, statuses.Keys);
    GroupsPartitionTheRows(order, rows);
  }

  // ----- The command -----

  datatype Output = NothingFound | ListenerOnly(shown: Shown) | Grouped(order: seq<Key>, groups: map<Key, seq<Row>>)

  /** What the command shows for an instance. The listeners are read twice, by statements of their own: for
      the instances met, and, unless one instance was asked for, all of them. The second reading wins where
      it finds a listener; where it finds none the first stays. */
  function ShownInCommand(first: map<Key, Listener>, second: map<Key, Listener>, explicit: Key, id: Key): Shown {
    if explicit == [] && id in second then FromListener(second[id]) else Joined(first, id)
  }

  /** The columns as they are printed: of the listener's row in the reading that counts, or blank. */
  lemma ShownColumns(first: map<Key, Listener>, second: map<Key, Listener>, explicit: Key, id: Key)
    ensures var s := ShownInCommand(first, second, explicit, id);
      && (explicit == [] && id in second ==> ShowsListener(s, second[id]))
      && (explicit != [] || id !in second ==> if id in first then ShowsListener(s, first[id]) else ShowsNothing(s))
  {
  }

  predicate ShowsListener(s: Shown, l: Listener) {
    && s.topic == l.topic && s.consumer == l.consumer && s.rest == l.rest
    && (s.registered <==> l.active) && (s.listen == "active" <==> l.active) && (s.listen == "stale" <==> !l.active)
  }

  predicate ShowsNothing(s: Shown) {
    s.topic == [] && s.listen == "" && !s.registered && s.consumer == "" && s.rest == 0
  }

  /** The default says so in both status columns. */
  lemma MissingSaysSo(topic: Key)
    ensures var s := Missing(topic);
      s.topic == topic && s.listen == "missing" && s.consumer == "missing" && !s.registered && s.rest == 0
  {
  }

  lemma SameInstances(before: seq<Row>, after: seq<Row>)
    requires |before| == |after| && forall i :: 0 <= i < |before| ==> after[i].instance == before[i].instance
    ensures InstancesOf(after) == InstancesOf(before)
  {
    forall id | id in InstancesOf(before) + InstancesOf(after)
      ensures id in InstancesOf(before) && id in InstancesOf(after)
    {
      var i :| 0 <= i < |before| && before[i].instance == id;
      assert before[i] in before && after[i] in after;
    }
  }

  /** The statuses of the command: one for every instance of the rows and for the one asked for or, with
      none asked for, for every listener. */
  method Statuses(rows: seq<Row>, explicit: Key, first: map<Key, Listener>, second: map<Key, Listener>,
      topic: Key -> Key) returns (statuses: map<Key, Shown>)
    ensures statuses.Keys == InstancesOf(rows) + if explicit != [] then {explicit} else second.Keys
    ensures forall id :: id in statuses ==> statuses[id] == ShownInCommand(first, second, explicit, id)
  {
    var ids := CollectInstanceIDs(rows, explicit);
    statuses := FetchStatuses(first, topic, ids);
    if explicit == [] {
      statuses := MergeAll(statuses, second);
    }
  }

  /** The command from the rows read to what is printed: collect, fetch, merge, apply in place, group. Every
      row ends with its own instance's listener columns, or blank ones where there is no listener; the
      "missing" default of the Go code is shown nowhere. Every row is printed once, under its instance, and
      the instances are those of the rows and of the listeners asked for, in order. */
  method DebugSSEConnections(connections: array<Row>, explicit: Key, first: map<Key, Listener>,
      second: map<Key, Listener>, topic: Key -> Key) returns (output: Output)
    modifies connections
    ensures forall i :: 0 <= i < connections.Length ==>
      && connections[i] == old(connections[i]).(
           shown := ShownInCommand(first, second, explicit, old(connections[i]).instance))
      && connections[i].shown.listen in {"active", "stale", ""}
    ensures output.NothingFound? <==> connections.Length == 0 && explicit == []
    ensures output.ListenerOnly? <==> connections.Length == 0 && explicit != []
    ensures output.ListenerOnly? ==> output.shown == Joined(first, explicit)
    ensures output.Grouped? ==>
      && Sorted(output.order)
      && Elements(output.order)
         == InstancesOf(old(connections[..])) + (if explicit != [] then {explicit} else second.Keys)
      && GroupedSoFar(output.groups, connections[..])
      && multiset(Everything(output.order, connections[..])) == multiset(connections[..])
  {
    ghost var rows := connections[..];
    var statuses := Statuses(connections[..], explicit, first, second, topic);
    ApplyStatuses(connections, statuses, topic);
    forall i | 0 <= i < connections.Length
      ensures connections[i] == rows[i].(shown := ShownInCommand(first, second, explicit, rows[i].instance))
    {
      assert rows[i] in rows && rows[i].instance in InstancesOf(rows);
    }
    SameInstances(rows, connections[..]);
    if connections.Length == 0 {
      if explicit == [] {
        return NothingFound;
      }
      return ListenerOnly(ShownFor(statuses, topic, explicit));
    }
    var order, groups := Group(connections[..], statuses);
    return Grouped(order, groups);
  }
}
