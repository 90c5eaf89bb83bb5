/** Resource bookings: check for a conflict, then insert; delete with the event. */
module Bookings {
  import opened Prelude

  type Id = nat

  datatype Booking = Booking(resource: Id, event: Id, start: int, end: int)

  /** resource_booking rows by id. */
  type Table = map<Id, Booking>

  /** DetectResourceConflict's range test: start_time < $range_end AND end_time > $range_start. */
  predicate RangesMeet(b: Booking, start: int, end: int) {
    b.start < end && b.end > start
  }

  /** The instant t lies in the half-open interval. */
  predicate During(start: int, end: int, t: int) {
    start <= t < end
  }

  ghost predicate ShareAnInstant(b: Booking, start: int, end: int) {
    exists t :: During(b.start, b.end, t) && During(start, end, t)
  }

  /** The range test is exact for non-empty intervals. */
  lemma RangeTestIsExact(b: Booking, start: int, end: int)
    ensures b.start < b.end && start < end ==> (RangesMeet(b, start, end) <==> ShareAnInstant(b, start, end))
    ensures ShareAnInstant(b, start, end) ==> RangesMeet(b, start, end)
    ensures !(b.start < b.end && start < end) ==> !ShareAnInstant(b, start, end)
  {
    if b.start < b.end && start < end && RangesMeet(b, start, end) {
      var t := Max(b.start, start);
      assert During(b.start, b.end, t) && During(start, end, t);
    }
  }

  /** The interval holds no instant, yet both of its ends lie strictly within the other's. */
  predicate EmptyInside(start: int, end: int, outerStart: int, outerEnd: int) {
    end <= start && outerStart < end && start < outerEnd
  }

  /** What the test says of any two intervals. An all-day event may end where it starts, or before: such a
      booking holds no instant, and the test still reports a conflict exactly when it lies strictly inside
      the other. Two of them never conflict. */
  lemma RangesMeetIff(b: Booking, start: int, end: int)
    ensures RangesMeet(b, start, end) <==>
      ShareAnInstant(b, start, end) || EmptyInside(b.start, b.end, start, end) ||
      EmptyInside(start, end, b.start, b.end)
    ensures b.end <= b.start && end <= start ==> !RangesMeet(b, start, end)
  {
    RangeTestIsExact(b, start, end);
  }

  function Conflicts(t: Table, resource: Id, start: int, end: int, event: Id): set<Id> {
    set i | i in t && t[i].resource == resource && RangesMeet(t[i], start, end) && t[i].event != event
  }

  /** Two bookings of one resource for different events never share an instant. */
  ghost predicate NoDoubleBooking(t: Table) {
    forall i, j :: i in t && j in t && t[i].resource == t[j].resource && t[i].event != t[j].event
      ==> !ShareAnInstant(t[i], t[j].start, t[j].end)
  }

  datatype Change = Book(id: Id, booking: Booking) | Release(event: Id)

  /** CreateResourceBooking; DeleteBookingsForEvent. */
  function Apply(t: Table, c: Change): Table {
    match c
    case Book(id, b) =>
      if id in t || Conflicts(t, b.resource, b.start, b.end, b.event) != {} then t else t[id := b]
    case Release(event) => map i | i in t && t[i].event != event :: t[i]
  }

  /** A booking adds its own row, if its id is new and nothing conflicts; a release removes the event's rows. No
      other row is touched. */
  lemma OneChange(t: Table, id: Id, b: Booking, event: Id)
    ensures Apply(t, Book(id, b))
         == if id !in t && Conflicts(t, b.resource, b.start, b.end, b.event) == {} then t[id := b] else t
    ensures var after := Apply(t, Release(event));
      && (forall i :: i in after <==> i in t && t[i].event != event) && forall i :: i in after ==> after[i] == t[i]
  {
  }

  function Run(t: Table, changes: seq<Change>): Table
    decreases |changes|
  {
    if changes == [] then t else Apply(Run(t, changes[..|changes| - 1]), changes[|changes| - 1])
  }

  lemma SharingIsSymmetric(a: Booking, b: Booking)
    ensures ShareAnInstant(a, b.start, b.end) <==> ShareAnInstant(b, a.start, a.end)
  {
    if ShareAnInstant(a, b.start, b.end) {
      var t :| During(a.start, a.end, t) && During(b.start, b.end, t);
    }
    if ShareAnInstant(b, a.start, a.end) {
      var t :| During(b.start, b.end, t) && During(a.start, a.end, t);
    }
  }

  lemma BookKeeps(t: Table, id: Id, b: Booking)
    requires NoDoubleBooking(t) && Conflicts(t, b.resource, b.start, b.end, b.event) == {}
    ensures NoDoubleBooking(t[id := b])
  {
    var u := t[id := b];
    forall i | i in t && i != id && t[i].resource == b.resource && t[i].event != b.event
      ensures !ShareAnInstant(t[i], b.start, b.end) && !ShareAnInstant(b, t[i].start, t[i].end)
    {
      assert i !in Conflicts(t, b.resource, b.start, b.end, b.event);
      RangeTestIsExact(t[i], b.start, b.end);
      SharingIsSymmetric(t[i], b);
    }
  }

  /** In every reachable table, through any bookings and releases. */
  lemma {:induction false} NeverDoubleBooked(changes: seq<Change>)
    ensures NoDoubleBooking(Run(map[], changes))
    decreases |changes|
  {
    if changes != [] {
      NeverDoubleBooked(changes[..|changes| - 1]);
      var t, c := Run(map[], changes[..|changes| - 1]), changes[|changes| - 1];
      if c.Book? && Conflicts(t, c.booking.resource, c.booking.start, c.booking.end, c.booking.event) == {} {
        BookKeeps(t, c.id, c.booking);
      }
    }
  }

  /** The check refuses nothing it need not: a non-empty request on a table of non-empty bookings is refused
      exactly when it shares an instant with another event's booking of the resource. */
  lemma RefusedIffOverlapping(t: Table, b: Booking)
    requires b.start < b.end && forall i :: i in t ==> t[i].start < t[i].end
    ensures Conflicts(t, b.resource, b.start, b.end, b.event) != {} <==>
      exists i :: i in t && t[i].resource == b.resource && t[i].event != b.event && ShareAnInstant(t[i], b.start, b.end)
  {
    forall i | i in t
      ensures RangesMeet(t[i], b.start, b.end) <==> ShareAnInstant(t[i], b.start, b.end)
    {
      RangeTestIsExact(t[i], b.start, b.end);
    }
    if exists i :: i in t && t[i].resource == b.resource && t[i].event != b.event
         && ShareAnInstant(t[i], b.start, b.end) {
      var i :| i in t && t[i].resource == b.resource && t[i].event != b.event && ShareAnInstant(t[i], b.start, b.end);
      assert i in Conflicts(t, b.resource, b.start, b.end, b.event);
    }
  }

  // ----- Which bookings of one resource are taken together -----

  predicate Compatible(a: Booking, b: Booking) {
    a.resource != b.resource || a.event == b.event || !RangesMeet(a, b.start, b.end)
  }

  predicate PairwiseCompatible(bookings: seq<Booking>) {
    forall i, j :: 0 <= i < j < |bookings| ==> Compatible(bookings[i], bookings[j])
  }

  /** Each is asked for in turn, under its own id. */
  function Requests(bookings: seq<Booking>): (changes: seq<Change>)
    ensures |changes| == |bookings| && forall i :: 0 <= i < |bookings| ==> changes[i] == Book(i, bookings[i])
  {
    seq(|bookings|, i requires 0 <= i < |bookings| => Book(i, bookings[i]))
  }

  lemma LastRequest(bookings: seq<Booking>)
    requires bookings != []
    ensures var n := |bookings| - 1;
      Run(map[], Requests(bookings)) == Apply(Run(map[], Requests(bookings[..n])), Book(n, bookings[n]))
  {
    assert Requests(bookings)[..|bookings| - 1] == Requests(bookings[..|bookings| - 1]);
  }

  lemma {:induction false} RowsAreRequests(bookings: seq<Booking>)
    ensures forall i :: i in Run(map[], Requests(bookings)) ==>
      i < |bookings| && Run(map[], Requests(bookings))[i] == bookings[i]
    decreases |bookings|
  {
    if bookings != [] {
      LastRequest(bookings);
      RowsAreRequests(bookings[..|bookings| - 1]);
    }
  }

  ghost predicate AllTaken(bookings: seq<Booking>) {
    forall i: nat :: i < |bookings| ==> i in Run(map[], Requests(bookings))
  }

  lemma OneMoreTaken(bookings: seq<Booking>)
    requires bookings != []
    ensures var n := |bookings| - 1;
      AllTaken(bookings) <==>
        AllTaken(bookings[..n]) && forall i :: 0 <= i < n ==> Compatible(bookings[i], bookings[n])
  {
    var n := |bookings| - 1;
    var t := Run(map[], Requests(bookings[..n]));
    LastRequest(bookings);
    RowsAreRequests(bookings[..n]);
    var b := bookings[n];
    var conflicts := Conflicts(t, b.resource, b.start, b.end, b.event);
    assert n !in t;
    assert forall i: nat :: i in conflicts <==> i in t && !Compatible(bookings[i], b);
    var u := Run(map[], Requests(bookings));
    assert u == if conflicts == {} then t[n := b] else t;
    assert n in u <==> conflicts == {};
    assert forall i: nat :: i < n ==> (i in u <==> i in t);
  }

  /** Any list of bookings is accepted as a whole exactly when no two of them, for different events and one
      resource, meet: which one comes first does not matter. */
  lemma {:induction false} AllTakenIffCompatible(bookings: seq<Booking>)
    ensures AllTaken(bookings) <==> PairwiseCompatible(bookings)
    decreases |bookings|
  {
    if bookings != [] {
      var n := |bookings| - 1;
      AllTakenIffCompatible(bookings[..n]);
      OneMoreTaken(bookings);
      assert PairwiseCompatible(bookings) <==>
        PairwiseCompatible(bookings[..n]) && forall i :: 0 <= i < n ==> Compatible(bookings[i], bookings[n]) by {
        assert forall i :: 0 <= i < n ==> bookings[..n][i] == bookings[i];
      }
    }
  }

  /** So bookings that end no later than they start, which an all-day event may have, are all taken, however
      many events ask for the same resource at the same moment. */
  lemma EmptyBookingsDoNotBlock(bookings: seq<Booking>)
    requires forall b :: b in bookings ==> b.end <= b.start
    ensures AllTaken(bookings)
  {
    forall i, j | 0 <= i < j < |bookings|
      ensures Compatible(bookings[i], bookings[j])
    {
      assert bookings[i] in bookings && bookings[j] in bookings;
      RangesMeetIff(bookings[i], bookings[j].start, bookings[j].end);
    }
    AllTakenIffCompatible(bookings);
  }

  // ----- The times of the events themselves -----

  datatype Times = Times(start: int, end: int)

  /** The live events with their own times, and the bookings. Creating an event books its resources for its
      times; cancelling it releases them; changing its times leaves its bookings where they are. */
  datatype Calendar = Calendar(events: map<Id, Times>, bookings: Table)

  const NO_EVENTS := Calendar(map[], map[])

  datatype Request = Request(id: Id, resource: Id)

  datatype Action =
    | CreateEvent(event: Id, times: Times, requests: seq<Request>)
    | UpdateEvent(event: Id, times: Times)
    | CancelEvent(event: Id)

  /** One booking after the other; a conflict refuses the event as a whole. */
  function BookAll(t: Table, event: Id, times: Times, requests: seq<Request>): Option<Table>
    decreases |requests|
  {
    if requests == [] then Some(t) else
      var (sofar, q) := (BookAll(t, event, times, requests[..|requests| - 1]), requests[|requests| - 1]);
      if sofar.None? || q.id in sofar.value
         || Conflicts(sofar.value, q.resource, times.start, times.end, event) != {}
      then None
      else Some(sofar.value[q.id := Booking(q.resource, event, times.start, times.end)])
  }

  function Act(c: Calendar, a: Action): Calendar {
    match a
    case CreateEvent(event, times, requests) =>
      var booked := BookAll(c.bookings, event, times, requests);
      if event in c.events || booked.None? then c else Calendar(c.events[event := times], booked.value)
    case UpdateEvent(event, times) =>
      if event in c.events then c.(events := c.events[event := times]) else c
    case CancelEvent(event) => Calendar(c.events - {event}, Apply(c.bookings, Release(event)))
  }

  function Perform(c: Calendar, actions: seq<Action>): Calendar
    decreases |actions|
  {
    if actions == [] then c else Act(Perform(c, actions[..|actions| - 1]), actions[|actions| - 1])
  }

  lemma OneMoreAction(c: Calendar, actions: seq<Action>, a: Action)
    ensures Perform(c, actions + [a]) == Act(Perform(c, actions), a)
  {
    assert (actions + [a])[..|actions|] == actions;
  }

  /** New ids, each once. */
  ghost predicate FreshIds(t: Table, requests: seq<Request>) {
    && (forall q :: q in requests ==> q.id !in t)
    && forall i, j :: 0 <= i < j < |requests| ==> requests[i].id != requests[j].id
  }

  /** The event does not get in its own way: its requests are taken as a whole if and only if each is free of
      the bookings there were, and then there is a booking for each. */
  lemma {:induction false} BookAllIff(t: Table, event: Id, times: Times, requests: seq<Request>)
    requires FreshIds(t, requests) && forall i :: i in t ==> t[i].event != event
    ensures BookAll(t, event, times, requests).Some? <==>
      forall q :: q in requests ==> Conflicts(t, q.resource, times.start, times.end, event) == {}
    ensures BookAll(t, event, times, requests).Some? ==>
      var u := BookAll(t, event, times, requests).value;
      && (forall i :: i in u <==> i in t || exists q :: q in requests && q.id == i)
      && (forall i :: i in t ==> u[i] == t[i])
      && forall q :: q in requests ==> u[q.id] == Booking(q.resource, event, times.start, times.end)
    decreases |requests|
  {
    if requests != [] {
      var front, q := requests[..|requests| - 1], requests[|requests| - 1];
      assert forall x :: x in requests <==> x in front || x == q;
      forall x | x in front
        ensures x.id != q.id
      {
        var k :| 0 <= k < |front| && front[k] == x;
        assert requests[k].id != requests[|front|].id;
      }
      BookAllIff(t, event, times, front);
      if BookAll(t, event, times, front).Some? {
        var u := BookAll(t, event, times, front).value;
        assert Conflicts(u, q.resource, times.start, times.end, event)
            == Conflicts(t, q.resource, times.start, times.end, event) by {
          assert forall i :: i in u && i !in t ==> u[i].event == event;
        }
      }
    }
  }

  /** What the actions do, and to nothing else. */
  lemma ActionsTakeEffect(c: Calendar, event: Id, times: Times, requests: seq<Request>)
    ensures event !in c.events && BookAll(c.bookings, event, times, requests).Some? ==>
      Act(c, CreateEvent(event, times, requests))
      == Calendar(c.events[event := times], BookAll(c.bookings, event, times, requests).value)
    ensures event in c.events || BookAll(c.bookings, event, times, requests).None? ==>
      Act(c, CreateEvent(event, times, requests)) == c
    ensures event in c.events ==>
      Act(c, UpdateEvent(event, times)) == Calendar(c.events[event := times], c.bookings)
    ensures var after := Act(c, CancelEvent(event));
      && after.events == c.events - {event}
      && forall i :: i in after.bookings <==> i in c.bookings && c.bookings[i].event != event
  {
  }

  predicate WellFormed(c: Calendar) {
    forall i :: i in c.bookings ==> c.bookings[i].event in c.events
  }

  /** Every booking with the times its event has now. */
  function Own(c: Calendar): Table {
    map i | i in c.bookings && c.bookings[i].event in c.events ::
      var x := c.events[c.bookings[i].event];
      c.bookings[i].(start := x.start, end := x.end)
  }

  /** No two live events that hold one resource take place at the same instant. */
  ghost predicate NoClash(c: Calendar) {
    NoDoubleBooking(Own(c))
  }

  /** Nobody else who holds a resource that the event holds takes place during these times. */
  ghost predicate FreeFor(t: Table, event: Id, times: Times) {
    forall i, j :: i in t && j in t && t[i].event == event && t[j].event != event && t[i].resource == t[j].resource
      ==> !ShareAnInstant(t[j], times.start, times.end)
  }

  /** When one event's bookings all have the same times, only those have to be compared with the rest. */
  lemma OneEventAgainstTheRest(t: Table, event: Id, times: Times)
    requires forall i :: i in t && t[i].event == event ==> t[i].start == times.start && t[i].end == times.end
    requires NoDoubleBooking(Apply(t, Release(event)))
    ensures NoDoubleBooking(t) <==> FreeFor(t, event, times)
  {
    var rest := Apply(t, Release(event));
    if FreeFor(t, event, times) {
      forall i, j | i in t && j in t && t[i].resource == t[j].resource && t[i].event != t[j].event
        ensures !ShareAnInstant(t[i], t[j].start, t[j].end)
      {
        SharingIsSymmetric(t[i], t[j]);
        assert t[i].event != event && t[j].event != event ==> i in rest && j in rest;
      }
    }
    if NoDoubleBooking(t) {
      forall i, j | i in t && j in t && t[i].event == event && t[j].event != event && t[i].resource == t[j].resource
        ensures !ShareAnInstant(t[j], times.start, times.end)
      {
        assert !ShareAnInstant(t[j], t[i].start, t[i].end);
      }
    }
  }

  lemma FewerDoNotClash(t: Table, event: Id)
    requires NoDoubleBooking(t)
    ensures NoDoubleBooking(Apply(t, Release(event)))
  {
  }

  /** The tables differ only in the times of one event's bookings. */
  ghost predicate SameBut(t: Table, u: Table, event: Id) {
    && t.Keys == u.Keys
    && (forall i :: i in t ==> t[i].event == u[i].event && t[i].resource == u[i].resource)
    && forall i :: i in t && t[i].event != event ==> t[i] == u[i]
  }

  lemma SameButReleases(t: Table, u: Table, event: Id, times: Times)
    requires SameBut(t, u, event)
    ensures Apply(t, Release(event)) == Apply(u, Release(event))
    ensures FreeFor(t, event, times) <==> FreeFor(u, event, times)
  {
    if FreeFor(t, event, times) {
      forall i, j | i in u && j in u && u[i].event == event && u[j].event != event && u[i].resource == u[j].resource
        ensures !ShareAnInstant(u[j], times.start, times.end)
      {
        assert !ShareAnInstant(t[j], times.start, times.end);
      }
    }
    if FreeFor(u, event, times) {
      forall i, j | i in t && j in t && t[i].event == event && t[j].event != event && t[i].resource == t[j].resource
        ensures !ShareAnInstant(t[j], times.start, times.end)
      {
        assert !ShareAnInstant(u[j], times.start, times.end);
      }
    }
  }

  lemma OwnAfterUpdate(c: Calendar, event: Id, times: Times)
    requires WellFormed(c) && event in c.events
    ensures var own := Own(Act(c, UpdateEvent(event, times)));
      && SameBut(own, Own(c), event)
      && forall i :: i in own && own[i].event == event ==> own[i].start == times.start && own[i].end == times.end
  {
  }

  /** Changing the times of an event is not checked. It keeps the calendar free of clashes exactly when no
      other holder of one of its resources takes place during the new times. */
  lemma UpdateKeepsFreeIff(c: Calendar, event: Id, times: Times)
    requires WellFormed(c) && NoClash(c) && event in c.events
    ensures NoClash(Act(c, UpdateEvent(event, times))) <==> FreeFor(Own(c), event, times)
  {
    var own := Own(Act(c, UpdateEvent(event, times)));
    OwnAfterUpdate(c, event, times);
    SameButReleases(own, Own(c), event, times);
    FewerDoNotClash(Own(c), event);
    OneEventAgainstTheRest(own, event, times);
  }

  /** What an accepted list of requests leaves: the old rows, and one row for the event for each. */
  ghost predicate Adds(t: Table, u: Table, event: Id, times: Times) {
    && (forall i :: i in t ==> i in u && u[i] == t[i])
    && forall i :: i in u && i !in t ==> u[i].event == event && u[i].start == times.start && u[i].end == times.end
  }

  lemma {:induction false} BookAllAdds(t: Table, event: Id, times: Times, requests: seq<Request>)
    ensures var u := BookAll(t, event, times, requests);
      u.Some? ==> Adds(t, u.value, event, times) && (NoDoubleBooking(t) ==> NoDoubleBooking(u.value))
    decreases |requests|
  {
    if requests != [] {
      var front, q := requests[..|requests| - 1], requests[|requests| - 1];
      BookAllAdds(t, event, times, front);
      var sofar := BookAll(t, event, times, front);
      if BookAll(t, event, times, requests).Some? && NoDoubleBooking(t) {
        BookKeeps(sofar.value, q.id, Booking(q.resource, event, times.start, times.end));
      }
    }
  }

  lemma OwnAfterCreate(c: Calendar, u: Table, event: Id, times: Times)
    requires WellFormed(c) && event !in c.events && Adds(c.bookings, u, event, times)
    ensures var own := Own(Calendar(c.events[event := times], u));
      && Apply(own, Release(event)) == Own(c)
      && forall i :: i in own && own[i].event == event ==> own[i].start == times.start && own[i].end == times.end
  {
    var own := Own(Calendar(c.events[event := times], u));
    forall i
      ensures i in Apply(own, Release(event)) <==> i in Own(c)
      ensures i in Own(c) ==> own[i] == Own(c)[i]
    {
      assert i in u && i !in c.bookings ==> u[i].event == event;
    }
  }

  /** Creating an event is checked, but against the bookings. What is accepted keeps the calendar free of
      clashes exactly when it is free of the other holders' own times too. */
  lemma CreateKeepsFreeIff(c: Calendar, event: Id, times: Times, requests: seq<Request>)
    requires WellFormed(c) && NoClash(c) && event !in c.events
    requires BookAll(c.bookings, event, times, requests).Some?
    ensures var after := Act(c, CreateEvent(event, times, requests));
      NoClash(after) <==> FreeFor(Own(after), event, times)
  {
    BookAllAdds(c.bookings, event, times, requests);
    AddingKeepsFreeIff(c, BookAll(c.bookings, event, times, requests).value, event, times);
  }

  lemma AddingKeepsFreeIff(c: Calendar, u: Table, event: Id, times: Times)
    requires WellFormed(c) && NoClash(c) && event !in c.events && Adds(c.bookings, u, event, times)
    ensures var after := Calendar(c.events[event := times], u);
      NoClash(after) <==> FreeFor(Own(after), event, times)
  {
    OwnAfterCreate(c, u, event, times);
    OneEventAgainstTheRest(Own(Calendar(c.events[event := times], u)), event, times);
  }

  /** Somebody else's row covers the instant. */
  ghost predicate TakenAt(t: Table, resource: Id, event: Id, instant: int) {
    exists i :: i in t && t[i].resource == resource && t[i].event != event && During(t[i].start, t[i].end, instant)
  }

  /** Somebody else's row shares an instant with these times. */
  ghost predicate TakenDuring(t: Table, resource: Id, event: Id, times: Times) {
    exists i :: i in t && t[i].resource == resource && t[i].event != event
                && ShareAnInstant(t[i], times.start, times.end)
  }

  lemma TakenDuringIff(t: Table, resource: Id, event: Id, times: Times)
    ensures TakenDuring(t, resource, event, times)
       <==> exists x :: During(times.start, times.end, x) && TakenAt(t, resource, event, x)
  {
    if TakenDuring(t, resource, event, times) {
      var i :| i in t && t[i].resource == resource && t[i].event != event
        && ShareAnInstant(t[i], times.start, times.end);
      var x :| During(t[i].start, t[i].end, x) && During(times.start, times.end, x);
      assert TakenAt(t, resource, event, x);
    }
    if x :| During(times.start, times.end, x) && TakenAt(t, resource, event, x) {
      var i :| i in t && t[i].resource == resource && t[i].event != event && During(t[i].start, t[i].end, x);
      assert ShareAnInstant(t[i], times.start, times.end);
    }
  }

  ghost predicate SameInstants(t: Table, u: Table, resource: Id) {
    forall event, x :: TakenAt(t, resource, event, x) <==> TakenAt(u, resource, event, x)
  }

  /** So the check asks the right question of every request exactly when the bookings of the resource cover
      the instants at which its holders take place: changing times breaks it in both directions, it lets
      clashes in and refuses what has become free. */
  lemma CheckIsExactIff(c: Calendar, resource: Id)
    requires forall i :: i in c.bookings ==> c.bookings[i].start < c.bookings[i].end
    ensures (forall event, times: Times :: times.start < times.end ==>
               (Conflicts(c.bookings, resource, times.start, times.end, event) != {}
                <==> TakenDuring(Own(c), resource, event, times)))
       <==> SameInstants(c.bookings, Own(c), resource)
  {
    forall event, times: Times | times.start < times.end
      ensures Conflicts(c.bookings, resource, times.start, times.end, event) != {}
         <==> TakenDuring(c.bookings, resource, event, times)
    {
      RefusedIffOverlapping(c.bookings, Booking(resource, event, times.start, times.end));
    }
    if SameInstants(c.bookings, Own(c), resource) {
      forall event, times: Times
        ensures TakenDuring(c.bookings, resource, event, times) <==> TakenDuring(Own(c), resource, event, times)
      {
        TakenDuringIff(c.bookings, resource, event, times);
        TakenDuringIff(Own(c), resource, event, times);
      }
    }
    forall event, x
      ensures TakenAt(c.bookings, resource, event, x) <==> TakenDuring(c.bookings, resource, event, Times(x, x + 1))
      ensures TakenAt(Own(c), resource, event, x) <==> TakenDuring(Own(c), resource, event, Times(x, x + 1))
    {
      TakenDuringIff(c.bookings, resource, event, Times(x, x + 1));
      TakenDuringIff(Own(c), resource, event, Times(x, x + 1));
    }
  }

  /** Bookings and events agree, and nothing is booked twice. */
  ghost predicate Agreed(c: Calendar) {
    WellFormed(c) && Own(c) == c.bookings && NoDoubleBooking(c.bookings)
  }

  lemma AgreedIff(c: Calendar)
    requires WellFormed(c)
    ensures Own(c) == c.bookings <==> forall i :: i in c.bookings ==>
      c.events[c.bookings[i].event] == Times(c.bookings[i].start, c.bookings[i].end)
  {
    if Own(c) == c.bookings {
      forall i | i in c.bookings
        ensures c.events[c.bookings[i].event] == Times(c.bookings[i].start, c.bookings[i].end)
      {
        assert Own(c)[i] == c.bookings[i];
      }
    }
  }

  lemma CreateKeepsAgreed(c: Calendar, event: Id, times: Times, requests: seq<Request>)
    requires Agreed(c)
    ensures Agreed(Act(c, CreateEvent(event, times, requests)))
  {
    var booked := BookAll(c.bookings, event, times, requests);
    if event !in c.events && booked.Some? {
      BookAllAdds(c.bookings, event, times, requests);
      AddingKeepsAgreed(c, booked.value, event, times);
    }
  }

  lemma AddingKeepsAgreed(c: Calendar, u: Table, event: Id, times: Times)
    requires Agreed(c) && event !in c.events && Adds(c.bookings, u, event, times) && NoDoubleBooking(u)
    ensures Agreed(Calendar(c.events[event := times], u))
  {
    var after := Calendar(c.events[event := times], u);
    AgreedIff(c);
    forall i | i in u
      ensures u[i].event in after.events && after.events[u[i].event] == Times(u[i].start, u[i].end)
    {
      assert i in c.bookings ==> u[i] == c.bookings[i] && u[i].event in c.events;
    }
    AgreedIff(after);
  }

  lemma CancelKeepsAgreed(c: Calendar, event: Id)
    requires Agreed(c)
    ensures Agreed(Act(c, CancelEvent(event)))
  {
    FewerDoNotClash(c.bookings, event);
    var after := Act(c, CancelEvent(event));
    AgreedIff(c);
    AgreedIff(after);
  }

  /** As long as nobody changes the times of an event, bookings and events agree, and there is no clash. */
  lemma {:induction false} NoClashUnlessUpdated(actions: seq<Action>)
    requires forall a :: a in actions ==> !a.UpdateEvent?
    ensures var c := Perform(NO_EVENTS, actions);
      WellFormed(c) && Own(c) == c.bookings && NoClash(c)
    decreases |actions|
  {
    if actions != [] {
      var front, a := actions[..|actions| - 1], actions[|actions| - 1];
      assert a in actions && forall b :: b in front ==> b in actions;
      NoClashUnlessUpdated(front);
      match a {
        case CreateEvent(event, times, requests) =>
          CreateKeepsAgreed(Perform(NO_EVENTS, front), event, times, requests);
        case CancelEvent(event) =>
          CancelKeepsAgreed(Perform(NO_EVENTS, front), event);
      }
    }
  }

  class BookingTable {
    var rows: Table

    constructor ()
      ensures rows == map[]
    {
      rows := map[];
    }

    /** Check, then insert, in one transaction. */
    method CreateResourceBooking(id: Id, b: Booking) returns (booked: bool)
      requires id !in rows && NoDoubleBooking(rows)
      modifies this
      ensures NoDoubleBooking(rows)
      ensures rows == Apply(old(rows), Book(id, b))
      ensures booked <==> Conflicts(old(rows), b.resource, b.start, b.end, b.event) == {}
    {
      var conflicts := set i | i in rows && rows[i].resource == b.resource && RangesMeet(rows[i], b.start, b.end)
                               && rows[i].event != b.event;
      assert conflicts == Conflicts(rows, b.resource, b.start, b.end, b.event);
      if conflicts != {} {
        return false;
      }
      BookKeeps(rows, id, b);
      rows := rows[id := b];
      return true;
    }

    method DeleteBookingsForEvent(event: Id)
      requires NoDoubleBooking(rows)
      modifies this
      ensures NoDoubleBooking(rows)
      ensures rows == Apply(old(rows), Release(event))
    {
      rows := map i | i in rows && rows[i].event != event :: rows[i];
    }
  }
}
