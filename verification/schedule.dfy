/**
 * The schedule data and the venue aggregation run when the page mounts: every
 * day, every event and every venue of a multi-venue event is visited in
 * schedule order, and each non-placeholder, resolvable venue collects the
 * events held there.
 */
module Schedule {
  import opened Wrappers
  import opened StringOrder
  import opened Venues

  /** An event's `venue` field: one name, or a list for an event held at several sites. */
  datatype VenueField = Single(venue: string) | Several(venues: seq<string>)

  datatype Event = Event(name: string, time: string, venue: VenueField, description: Option<string>)

  datatype DaySchedule = DaySchedule(date: string, dateRange: Option<string>, events: seq<Event>)

  datatype ScheduleData = ScheduleData(eventName: string, tagline: string, schedule: seq<DaySchedule>)

  /** What a venue records of each event held there. */
  datatype EventRef = EventRef(name: string, date: string, time: string)

  datatype VenueWithEvents = VenueWithEvents(location: Location, venueName: string, events: seq<EventRef>)

  /** One visit of the aggregation: a venue named by an event, with that event. */
  datatype Occurrence = Occurrence(venue: string, ref: EventRef)

  /** A single venue is treated as a one-element list. */
  function VenueList(f: VenueField): seq<string> {
    match f
    case Single(v) => [v]
    case Several(vs) => vs
  }

  /** Event `k` of day `d` exists and names venue `v`. */
  predicate NamesVenue(days: seq<DaySchedule>, d: int, k: int, v: string) {
    0 <= d < |days| && 0 <= k < |days[d].events| && v in VenueList(days[d].events[k].venue)
  }

  /** `o` is the visit of venue `o.venue` by event `k` of a day's `events` held on `date`. */
  predicate VisitOf(date: string, events: seq<Event>, k: int, o: Occurrence) {
    && 0 <= k < |events|
    && o.venue in VenueList(events[k].venue)
    && o.ref == EventRef(events[k].name, date, events[k].time)
  }

  /** `o` is the visit of venue `o.venue` by event `k` of day `d`. */
  predicate IsVisit(days: seq<DaySchedule>, d: int, k: int, o: Occurrence) {
    0 <= d < |days| && VisitOf(days[d].date, days[d].events, k, o)
  }

  /** Some event of the schedule names venue `v`. */
  predicate Listed(days: seq<DaySchedule>, v: string) {
    exists d, k | 0 <= d < |days| && 0 <= k < |days[d].events| :: NamesVenue(days, d, k, v)
  }

  /** The visits made for one event, one per listed venue, in list order. */
  function EventOccurrences(date: string, e: Event): seq<Occurrence> {
    seq(|VenueList(e.venue)|, i requires 0 <= i < |VenueList(e.venue)| =>
      Occurrence(VenueList(e.venue)[i], EventRef(e.name, date, e.time)))
  }

  /** The visits made for a day's events, in event order. */
  function DayOccurrences(date: string, events: seq<Event>): (r: seq<Occurrence>)
    ensures forall o :: o in r <==> exists k :: VisitOf(date, events, k, o)
  {
    if |events| == 0 then []
    else
      var first := EventOccurrences(date, events[0]);
      var rest := DayOccurrences(date, events[1..]);
      forall o | o in first ensures VisitOf(date, events, 0, o) {
      }
      forall o | o in rest ensures exists k :: VisitOf(date, events, k, o) {
        var k :| VisitOf(date, events[1..], k, o);
        assert VisitOf(date, events, k + 1, o);
      }
      forall o, k | VisitOf(date, events, k, o) ensures o in first + rest {
        if k == 0 {
          var i :| 0 <= i < |VenueList(events[0].venue)| && VenueList(events[0].venue)[i] == o.venue;
          assert first[i] == o;
        } else {
          assert VisitOf(date, events[1..], k - 1, o);
        }
      }
      first + rest
  }

  /** Every visit of the aggregation, in schedule order: days, then events,
      then the venues of each event. */
  function Occurrences(days: seq<DaySchedule>): (r: seq<Occurrence>)
    ensures forall o :: o in r <==> exists d, k :: IsVisit(days, d, k, o)
  {
    if |days| == 0 then []
    else
      var first := DayOccurrences(days[0].date, days[0].events);
      var rest := Occurrences(days[1..]);
      forall o | o in first ensures exists d, k :: IsVisit(days, d, k, o) {
        var k :| VisitOf(days[0].date, days[0].events, k, o);
        assert IsVisit(days, 0, k, o);
      }
      forall o | o in rest ensures exists d, k :: IsVisit(days, d, k, o) {
        var d, k :| IsVisit(days[1..], d, k, o);
        assert IsVisit(days, d + 1, k, o);
      }
      forall o, d, k | IsVisit(days, d, k, o) ensures o in first + rest {
        if d == 0 {
          assert o in first;
        } else {
          assert IsVisit(days[1..], d - 1, k, o);
        }
      }
      first + rest
  }

  /** The venue names of an aggregated list, in order. */
  function Names(vs: seq<VenueWithEvents>): (r: seq<string>)
    ensures |r| == |vs|
  {
    seq(|vs|, i requires 0 <= i < |vs| => vs[i].venueName)
  }

  /** The venues the aggregation keeps, one per visit, in visit order. */
  function AcceptedVenues(occ: seq<Occurrence>): seq<string> {
    if |occ| == 0 then []
    else
      var last := occ[|occ| - 1];
      AcceptedVenues(occ[..|occ| - 1]) + (if Accepted(last.venue) then [last.venue] else [])
  }

  /** The events visiting venue `name`, in visit order. */
  function EventsAt(occ: seq<Occurrence>, name: string): seq<EventRef> {
    if |occ| == 0 then []
    else
      var last := occ[|occ| - 1];
      EventsAt(occ[..|occ| - 1], name) + (if last.venue == name then [last.ref] else [])
  }

  /** Position of the entry named `name`, or -1 (`venueMap.has` / `venueMap.get`). */
  function IndexOfVenue(vs: seq<VenueWithEvents>, name: string): (i: int)
    ensures -1 <= i < |vs|
    ensures i == -1 <==> name !in Names(vs)
    ensures 0 <= i ==> vs[i].venueName == name
  {
    if |vs| == 0 then -1
    else if vs[0].venueName == name then
      assert Names(vs)[0] == name;
      0
    else
      var i := IndexOfVenue(vs[1..], name);
      assert Names(vs) == [vs[0].venueName] + Names(vs[1..]);
      if i == -1 then -1 else i + 1
  }

  /** The aggregation invariant after the visits `occ`: every entry is a
      kept venue carrying its resolved location and exactly the events that
      visited it; the entries appear once each, in first-visit order. */
  ghost predicate AggregatedFrom(occ: seq<Occurrence>, r: seq<VenueWithEvents>) {
    && Names(r) == Dedup(AcceptedVenues(occ))
    && forall i | 0 <= i < |r| ::
         && Accepted(r[i].venueName)
         && Resolve(r[i].venueName) == Some(r[i].location)
         && r[i].events == EventsAt(occ, r[i].venueName)
  }

  /** A kept venue has collected events exactly when it has been visited. */
  lemma {:induction false} EventsAtEmpty(occ: seq<Occurrence>, name: string)
    requires Accepted(name)
    ensures EventsAt(occ, name) == [] <==> name !in AcceptedVenues(occ)
  {
    if |occ| > 0 {
      EventsAtEmpty(occ[..|occ| - 1], name);
    }
  }

  /** One visit of the innermost `forEach` body of the mount effect: skip placeholder and
      unresolvable venues; otherwise create the venue's entry on first sight
      and append the event to it. */
  function Visit(acc: seq<VenueWithEvents>, o: Occurrence): seq<VenueWithEvents> {
    if !Accepted(o.venue) then acc
    else
      var i := IndexOfVenue(acc, o.venue);
      if i == -1 then acc + [VenueWithEvents(Resolve(o.venue).value, o.venue, [o.ref])]
      else acc[i := acc[i].(events := acc[i].events + [o.ref])]
  }

  /** The aggregated venue list after the visits `occ`, in order. */
  function Aggregate(occ: seq<Occurrence>): (r: seq<VenueWithEvents>)
    ensures AggregatedFrom(occ, r)
  {
    if |occ| == 0 then []
    else
      var prefix := occ[..|occ| - 1];
      var o := occ[|occ| - 1];
      var acc := Aggregate(prefix);
      var r := Visit(acc, o);
      VisitKeepsInvariant(prefix, o, acc);
      assert prefix + [o] == occ;
      r
  }

  lemma VisitKeepsInvariant(prefix: seq<Occurrence>, o: Occurrence, acc: seq<VenueWithEvents>)
    requires AggregatedFrom(prefix, acc)
    ensures AggregatedFrom(prefix + [o], Visit(acc, o))
  {
    var occ := prefix + [o];
    assert occ[..|occ| - 1] == prefix;
    if !Accepted(o.venue) {
      SkippedVisit(prefix, o, acc);
    } else if IndexOfVenue(acc, o.venue) == -1 {
      FirstVisit(prefix, o, acc);
    } else {
      RepeatVisit(prefix, o, acc);
    }
  }

  /** Appending a visit extends the events of its venue and of no other. */
  lemma EventsAtSnoc(prefix: seq<Occurrence>, o: Occurrence, name: string)
    ensures EventsAt(prefix + [o], name) ==
      EventsAt(prefix, name) + (if o.venue == name then [o.ref] else [])
  {
    var occ := prefix + [o];
    assert occ[..|occ| - 1] == prefix;
  }

  lemma AcceptedVenuesSnoc(prefix: seq<Occurrence>, o: Occurrence)
    ensures AcceptedVenues(prefix + [o]) ==
      AcceptedVenues(prefix) + (if Accepted(o.venue) then [o.venue] else [])
  {
    var occ := prefix + [o];
    assert occ[..|occ| - 1] == prefix;
  }

  lemma SkippedVisit(prefix: seq<Occurrence>, o: Occurrence, acc: seq<VenueWithEvents>)
    requires AggregatedFrom(prefix, acc) && !Accepted(o.venue)
    ensures AggregatedFrom(prefix + [o], Visit(acc, o))
  {
    AcceptedVenuesSnoc(prefix, o);
    assert Visit(acc, o) == acc;
    assert AcceptedVenues(prefix + [o]) == AcceptedVenues(prefix) + [];
    assert AcceptedVenues(prefix + [o]) == AcceptedVenues(prefix);
    forall i | 0 <= i < |acc|
      ensures acc[i].events == EventsAt(prefix + [o], acc[i].venueName)
    {
      assert Accepted(acc[i].venueName);
      assert acc[i].venueName != o.venue;
      EventsAtSnoc(prefix, o, acc[i].venueName);
    }
  }

  lemma FirstVisit(prefix: seq<Occurrence>, o: Occurrence, acc: seq<VenueWithEvents>)
    requires AggregatedFrom(prefix, acc) && Accepted(o.venue)
    requires IndexOfVenue(acc, o.venue) == -1
    ensures AggregatedFrom(prefix + [o], Visit(acc, o))
  {
    var v := o.venue;
    var entry := VenueWithEvents(Resolve(v).value, v, [o.ref]);
    assert Visit(acc, o) == acc + [entry];
    FirstVisitNames(prefix, o, acc);
    FirstVisitEntries(prefix, o, acc, entry);
  }

  /** A first visit appends the venue's name to the kept names. */
  lemma FirstVisitNames(prefix: seq<Occurrence>, o: Occurrence, acc: seq<VenueWithEvents>)
    requires Names(acc) == Dedup(AcceptedVenues(prefix)) && Accepted(o.venue)
    requires IndexOfVenue(acc, o.venue) == -1
    ensures o.venue !in AcceptedVenues(prefix) && o.venue !in Names(acc)
    ensures forall e: VenueWithEvents | e.venueName == o.venue ::
      Names(acc + [e]) == Dedup(AcceptedVenues(prefix + [o]))
  {
    var v := o.venue;
    AcceptedVenuesSnoc(prefix, o);
    var before := AcceptedVenues(prefix);
    assert AcceptedVenues(prefix + [o]) == before + [v];
    assert v !in Dedup(before);
    assert (before + [v])[..|before + [v]| - 1] == before;
    assert Dedup(before + [v]) == Dedup(before) + [v];
    forall e: VenueWithEvents | e.venueName == v
      ensures Names(acc + [e]) == Dedup(AcceptedVenues(prefix + [o]))
    {
      assert Names(acc + [e]) == Names(acc) + [v];
    }
    assert v !in Elements(Dedup(before));
  }

  /** After a first visit every entry, old and new, still records the
      events of its venue. */
  lemma FirstVisitEntries(prefix: seq<Occurrence>, o: Occurrence, acc: seq<VenueWithEvents>,
                          entry: VenueWithEvents)
    requires AggregatedFrom(prefix, acc) && Accepted(o.venue)
    requires IndexOfVenue(acc, o.venue) == -1
    requires entry == VenueWithEvents(Resolve(o.venue).value, o.venue, [o.ref])
    ensures AggregatedFrom(prefix + [o], acc + [entry])
  {
    var v := o.venue;
    FirstVisitNames(prefix, o, acc);
    FirstEventOfVenue(prefix, o);
    forall j | 0 <= j < |acc|
      ensures acc[j].events == EventsAt(prefix + [o], acc[j].venueName)
    {
      assert Names(acc)[j] == acc[j].venueName != v;
      EventsAtSnoc(prefix, o, acc[j].venueName);
    }
    assert forall j | 0 <= j < |acc| :: (acc + [entry])[j] == acc[j];
    assert (acc + [entry])[|acc|] == entry;
  }

  /** The first visit of a kept venue gives it exactly that visit's event. */
  lemma FirstEventOfVenue(prefix: seq<Occurrence>, o: Occurrence)
    requires Accepted(o.venue) && o.venue !in AcceptedVenues(prefix)
    ensures EventsAt(prefix + [o], o.venue) == [o.ref]
  {
    EventsAtEmpty(prefix, o.venue);
    EventsAtSnoc(prefix, o, o.venue);
  }

  lemma RepeatVisit(prefix: seq<Occurrence>, o: Occurrence, acc: seq<VenueWithEvents>)
    requires AggregatedFrom(prefix, acc) && Accepted(o.venue)
    requires IndexOfVenue(acc, o.venue) != -1
    ensures AggregatedFrom(prefix + [o], Visit(acc, o))
  {
    var v := o.venue;
    var i := IndexOfVenue(acc, v);
    var r := Visit(acc, o);
    AcceptedVenuesSnoc(prefix, o);
    assert v in Dedup(AcceptedVenues(prefix));
    assert Names(r) == Names(acc);
    EventsAtSnoc(prefix, o, v);
    forall j | 0 <= j < |acc| && j != i
      ensures r[j].events == EventsAt(prefix + [o], r[j].venueName)
    {
      assert Names(acc)[j] != Names(acc)[i];
      EventsAtSnoc(prefix, o, acc[j].venueName);
    }
  }

  /** A venue is among the kept venues exactly when it is kept and visited. */
  lemma {:induction false} AcceptedVenuesMembers(occ: seq<Occurrence>, v: string)
    ensures v in AcceptedVenues(occ) <==> Accepted(v) && exists o | o in occ :: o.venue == v
  {
    if |occ| > 0 {
      var prefix, last := occ[..|occ| - 1], occ[|occ| - 1];
      AcceptedVenuesMembers(prefix, v);
      assert occ == prefix + [last];
      AcceptedVenuesSnoc(prefix, last);
      var visited := exists o | o in occ :: o.venue == v;
      var visitedBefore := exists o | o in prefix :: o.venue == v;
      assert visited <==> visitedBefore || last.venue == v;
    }
  }

  /** An event is listed under a venue exactly when it visited that venue. */
  lemma {:induction false} EventsAtMembers(occ: seq<Occurrence>, name: string, ref: EventRef)
    ensures ref in EventsAt(occ, name) <==> Occurrence(name, ref) in occ
  {
    if |occ| > 0 {
      var prefix := occ[..|occ| - 1];
      EventsAtMembers(prefix, name, ref);
      assert occ == prefix + [occ[|occ| - 1]];
    }
  }

  /** Venue `v` is named by some event of the schedule. */
  lemma VisitedIffListed(days: seq<DaySchedule>, v: string)
    ensures (exists o | o in Occurrences(days) :: o.venue == v) <==> Listed(days, v)
  {
    var occ := Occurrences(days);
    if exists o | o in occ :: o.venue == v {
      var o :| o in occ && o.venue == v;
      var d, k :| IsVisit(days, d, k, o);
      assert NamesVenue(days, d, k, v);
    }
    if Listed(days, v) {
      var d, k :| 0 <= d < |days| && 0 <= k < |days[d].events| && NamesVenue(days, d, k, v);
      var e := days[d].events[k];
      var o := Occurrence(v, EventRef(e.name, days[d].date, e.time));
      assert IsVisit(days, d, k, o);
    }
  }

  /** `setVenues(Array.from(venueMap.values()))`: the aggregated venue list of
      a schedule. Every entry is a non-placeholder venue stored with the
      coordinates it resolves to and at least one event; no venue appears twice;
      the entries are exactly the kept venues some event names. */
  function AggregateVenues(data: ScheduleData): (r: seq<VenueWithEvents>)
    ensures forall i | 0 <= i < |r| ::
      && !IsTBA(r[i].venueName)
      && Resolve(r[i].venueName) == Some(r[i].location)
      && |r[i].events| > 0
    ensures Distinct(Names(r))
    ensures forall v :: v in Names(r) <==> Accepted(v) && Listed(data.schedule, v)
  {
    var occ := Occurrences(data.schedule);
    var r := Aggregate(occ);
    forall i | 0 <= i < |r|
      ensures |r[i].events| > 0
    {
      assert Names(r)[i] in Elements(Dedup(AcceptedVenues(occ)));
      EventsAtEmpty(occ, r[i].venueName);
    }
    forall v
      ensures v in Names(r) <==> Accepted(v) && Listed(data.schedule, v)
    {
      assert v in Names(r) <==> v in Elements(Dedup(AcceptedVenues(occ)));
      AcceptedVenuesMembers(occ, v);
      VisitedIffListed(data.schedule, v);
    }
    r
  }

  /** For each aggregated venue, an event is listed under it exactly when
      some scheduled event names that venue; a multi-venue event is therefore
      listed under every kept venue it names. The listing follows schedule
      order (`EventsAt` over `Occurrences`). */
  lemma AggregatedEventsExactly(data: ScheduleData, i: int, ref: EventRef)
    requires 0 <= i < |AggregateVenues(data)|
    ensures var entry := AggregateVenues(data)[i];
      && entry.events == EventsAt(Occurrences(data.schedule), entry.venueName)
      && (ref in entry.events <==>
          exists d, k :: IsVisit(data.schedule, d, k, Occurrence(entry.venueName, ref)))
  {
    var entry := AggregateVenues(data)[i];
    EventsAtMembers(Occurrences(data.schedule), entry.venueName, ref);
  }

  /** A multi-venue event appears under each of its kept venues. */
  lemma EventListedUnderEachVenue(data: ScheduleData, d: int, k: int, v: string)
    requires NamesVenue(data.schedule, d, k, v) && Accepted(v)
    ensures var e := data.schedule[d].events[k];
      exists i | 0 <= i < |AggregateVenues(data)| ::
        && AggregateVenues(data)[i].venueName == v
        && EventRef(e.name, data.schedule[d].date, e.time) in AggregateVenues(data)[i].events
  {
    var r := AggregateVenues(data);
    var e := data.schedule[d].events[k];
    var ref := EventRef(e.name, data.schedule[d].date, e.time);
    assert Listed(data.schedule, v);
    assert v in Names(r);
    var i :| 0 <= i < |r| && Names(r)[i] == v;
    assert IsVisit(data.schedule, d, k, Occurrence(v, ref));
    AggregatedEventsExactly(data, i, ref);
  }

  /** `uniqueVenues`: the kept venues of the schedule, deduplicated and sorted. */
  function UniqueVenues(data: ScheduleData): (r: seq<string>)
    ensures StrictlySorted(r)
    ensures forall v :: v in r <==> Accepted(v) && Listed(data.schedule, v)
  {
    var occ := Occurrences(data.schedule);
    var r := SortedSet(AcceptedVenues(occ));
    forall v
      ensures v in r <==> Accepted(v) && Listed(data.schedule, v)
    {
      assert v in r <==> v in Elements(r);
      AcceptedVenuesMembers(occ, v);
      VisitedIffListed(data.schedule, v);
    }
    r
  }

  /** The location selector offers exactly the aggregated venues, sorted:
      whichever correct sort is used, it is the sorted list of the
      aggregation's venue names. */
  lemma UniqueVenuesAreAggregatedNames(data: ScheduleData)
    ensures UniqueVenues(data) == Sort(Names(AggregateVenues(data)))
    ensures Elements(UniqueVenues(data)) == Elements(Names(AggregateVenues(data)))
  {
    var names := Names(AggregateVenues(data));
    var u := UniqueVenues(data);
    assert Elements(u) == Elements(names);
    var sorted := Sort(names);
    assert forall x :: x in sorted <==> x in multiset(sorted);
    assert forall x :: x in names <==> x in multiset(names);
    DistinctCountsOne(names);
    CountsOneDistinct(sorted);
    SortedDistinctIsStrict(sorted);
    StrictlySortedUnique(u, sorted);
  }
}
