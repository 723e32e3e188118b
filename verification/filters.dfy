/**
 * What the page derives from the aggregated venues and the two selectors:
 * the venues shown on the map, the dates listed in a venue's popup, which
 * event rows are clickable, and which days the schedule list shows. An empty
 * selection string means "no restriction", as the source's truthiness tests do.
 */
module Filters {
  import opened Wrappers
  import opened StringOrder
  import opened Venues
  import opened Schedule

  /** `a` is `b` with some elements left out, the rest in their original order. */
  predicate IsSubsequence<T(==)>(a: seq<T>, b: seq<T>) {
    || |a| == 0
    || (&& |b| > 0
        && ((a[0] == b[0] && IsSubsequence(a[1..], b[1..])) || IsSubsequence(a, b[1..])))
  }

  /** A subsequence keeps elements of the original only. */
  lemma {:induction false} SubsequenceElements<T>(a: seq<T>, b: seq<T>)
    requires IsSubsequence(a, b)
    ensures forall x | x in a :: x in b
  {
    if |a| > 0 {
      assert b == [b[0]] + b[1..];
      if a[0] == b[0] && IsSubsequence(a[1..], b[1..]) {
        SubsequenceElements(a[1..], b[1..]);
        assert a == [a[0]] + a[1..];
      } else {
        SubsequenceElements(a, b[1..]);
      }
    }
  }

  /** A sequence is a subsequence of itself. */
  lemma {:induction false} SubsequenceReflexive<T>(a: seq<T>)
    ensures IsSubsequence(a, a)
  {
    if |a| > 0 {
      SubsequenceReflexive(a[1..]);
    }
  }

  /** Subsequences of subsequences are subsequences. */
  lemma {:induction false} SubsequenceTransitive<T>(a: seq<T>, b: seq<T>, c: seq<T>)
    requires IsSubsequence(a, b) && IsSubsequence(b, c)
    ensures IsSubsequence(a, c)
    decreases |c|
  {
    if |a| > 0 {
      if IsSubsequence(b, c[1..]) {
        SubsequenceTransitive(a, b, c[1..]);
      } else if a[0] == b[0] && IsSubsequence(a[1..], b[1..]) {
        SubsequenceTransitive(a[1..], b[1..], c[1..]);
      } else {
        SubsequenceTransitive(a, b[1..], c[1..]);
      }
    }
  }

  /** The events of a venue held on `date`, in their order. */
  function EventsOn(events: seq<EventRef>, date: string): (r: seq<EventRef>)
    ensures forall e :: e in r <==> e in events && e.date == date
    ensures IsSubsequence(r, events)
  {
    if |events| == 0 then []
    else if events[0].date == date then [events[0]] + EventsOn(events[1..], date)
    else EventsOn(events[1..], date)
  }

  /** Filtering by date keeps every copy of an on-date event and no copy of
      any other. */
  lemma {:induction false} EventsOnCounts(events: seq<EventRef>, date: string)
    ensures forall e ::
      multiset(EventsOn(events, date))[e] == (if e.date == date then multiset(events)[e] else 0)
  {
    if |events| > 0 {
      EventsOnCounts(events[1..], date);
      assert events == [events[0]] + events[1..];
    }
  }

  /** A venue with its events narrowed to `date`, as the `map` step of `filteredVenues` does. */
  function Narrow(v: VenueWithEvents, date: string): VenueWithEvents {
    v.(events := EventsOn(v.events, date))
  }

  /** The date step of `filteredVenues`: narrow each venue's
      events to the date and drop venues left without events. */
  function NarrowToDate(vs: seq<VenueWithEvents>, date: string): (r: seq<VenueWithEvents>)
    ensures forall i | 0 <= i < |r| ::
      |r[i].events| > 0 && forall e | e in r[i].events :: e.date == date
    ensures IsSubsequence(Names(r), Names(vs))
  {
    if |vs| == 0 then []
    else
      var narrowed := Narrow(vs[0], date);
      var rest := NarrowToDate(vs[1..], date);
      assert Names(vs)[1..] == Names(vs[1..]);
      assert vs == [vs[0]] + vs[1..];
      if |narrowed.events| > 0 then
        var r := [narrowed] + rest;
        assert Names(r) == [narrowed.venueName] + Names(rest);
        assert Names(r)[1..] == Names(rest);
        r
      else
        rest
  }

  /** The date step keeps exactly the narrowed venues that still have events. */
  lemma {:induction false} NarrowToDateMembers(vs: seq<VenueWithEvents>, date: string, w: VenueWithEvents)
    ensures w in NarrowToDate(vs, date) <==>
      exists v | v in vs :: w == Narrow(v, date) && |w.events| > 0
  {
    if |vs| > 0 {
      NarrowToDateMembers(vs[1..], date, w);
      assert forall v :: v in vs <==> v == vs[0] || v in vs[1..];
    }
  }

  /** The location step of `filteredVenues`: keep the
      venues with exactly the selected name. */
  function KeepLocation(vs: seq<VenueWithEvents>, location: string): (r: seq<VenueWithEvents>)
    ensures forall i | 0 <= i < |r| :: r[i].venueName == location
    ensures IsSubsequence(r, vs)
    ensures forall v :: v in r <==> v in vs && v.venueName == location
  {
    if |vs| == 0 then []
    else if vs[0].venueName == location then [vs[0]] + KeepLocation(vs[1..], location)
    else KeepLocation(vs[1..], location)
  }

  /** `filteredVenues`: the optional date filter, then the optional location
      filter; an empty selection leaves the list as it is. */
  function FilteredVenues(vs: seq<VenueWithEvents>, date: string, location: string): (r: seq<VenueWithEvents>)
    ensures date == "" && location == "" ==> r == vs
    ensures date != "" ==> forall i | 0 <= i < |r| ::
      |r[i].events| > 0 && forall e | e in r[i].events :: e.date == date
    ensures location != "" ==> forall i | 0 <= i < |r| :: r[i].venueName == location
    ensures IsSubsequence(Names(r), Names(vs))
  {
    var byDate := if date != "" then NarrowToDate(vs, date) else vs;
    var r := if location != "" then KeepLocation(byDate, location) else byDate;
    SubsequenceReflexive(Names(vs));
    SubsequenceReflexive(byDate);
    SubsequenceNames(r, byDate);
    SubsequenceTransitive(Names(r), Names(byDate), Names(vs));
    r
  }

  /** The location step keeps every copy of a venue with the selected name
      and no copy of any other. */
  lemma {:induction false} KeepLocationCounts(vs: seq<VenueWithEvents>, location: string)
    ensures forall v ::
      multiset(KeepLocation(vs, location))[v] == (if v.venueName == location then multiset(vs)[v] else 0)
  {
    if |vs| > 0 {
      KeepLocationCounts(vs[1..], location);
      assert vs == [vs[0]] + vs[1..];
    }
  }

  /** Which venues the combined filter keeps: those of the selected name
      (any name when none is selected), each an input venue as it is when no
      date is selected, or narrowed to the selected date with an event left. */
  lemma FilteredVenuesMembers(vs: seq<VenueWithEvents>, date: string, location: string, w: VenueWithEvents)
    ensures w in FilteredVenues(vs, date, location) <==>
      && (location == "" || w.venueName == location)
      && exists v | v in vs :: if date == "" then w == v else w == Narrow(v, date) && |w.events| > 0
  {
    NarrowToDateMembers(vs, date, w);
  }

  /** Taking a subsequence of venues takes a subsequence of their names. */
  lemma {:induction false} SubsequenceNames(a: seq<VenueWithEvents>, b: seq<VenueWithEvents>)
    requires IsSubsequence(a, b)
    ensures IsSubsequence(Names(a), Names(b))
  {
    if |a| > 0 {
      assert Names(a)[1..] == Names(a[1..]);
      assert Names(b)[1..] == Names(b[1..]);
      if a[0] == b[0] && IsSubsequence(a[1..], b[1..]) {
        SubsequenceNames(a[1..], b[1..]);
      } else {
        SubsequenceNames(a, b[1..]);
      }
    }
  }

  /** A venue name that is nowhere in the list is filtered down to nothing. */
  lemma {:induction false} KeepLocationAbsent(vs: seq<VenueWithEvents>, location: string)
    requires location !in Names(vs)
    ensures KeepLocation(vs, location) == []
  {
    if |vs| > 0 {
      assert Names(vs)[0] == vs[0].venueName;
      assert Names(vs)[1..] == Names(vs[1..]);
      KeepLocationAbsent(vs[1..], location);
    }
  }

  /** A subsequence of a duplicate-free sequence is duplicate-free. */
  lemma {:induction false} SubsequenceDistinct<T>(a: seq<T>, b: seq<T>)
    requires IsSubsequence(a, b) && Distinct(b)
    ensures Distinct(a)
  {
    if |a| > 0 {
      assert Distinct(b[1..]);
      if a[0] == b[0] && IsSubsequence(a[1..], b[1..]) {
        SubsequenceDistinct(a[1..], b[1..]);
        SubsequenceElements(a[1..], b[1..]);
        assert a[0] !in b[1..];
        forall j | 0 < j < |a|
          ensures a[0] != a[j]
        {
          assert a[j] == a[1..][j - 1];
        }
      } else {
        SubsequenceDistinct(a, b[1..]);
      }
    }
  }

  /** Over a list with distinct venue names (such as the aggregated list),
      selecting a location leaves at most one venue. */
  lemma {:induction false} LocationSelectsAtMostOne(vs: seq<VenueWithEvents>, date: string, location: string)
    requires Distinct(Names(vs)) && location != ""
    ensures |FilteredVenues(vs, date, location)| <= 1
  {
    var byDate := if date != "" then NarrowToDate(vs, date) else vs;
    SubsequenceReflexive(Names(vs));
    SubsequenceDistinct(Names(byDate), Names(vs));
    KeepLocationAtMostOne(byDate, location);
  }

  lemma {:induction false} KeepLocationAtMostOne(vs: seq<VenueWithEvents>, location: string)
    requires Distinct(Names(vs))
    ensures |KeepLocation(vs, location)| <= 1
  {
    if |vs| > 0 {
      assert Names(vs)[1..] == Names(vs[1..]);
      assert Distinct(Names(vs[1..]));
      if vs[0].venueName == location {
        assert Names(vs)[0] == location;
        KeepLocationAbsent(vs[1..], location);
      } else {
        KeepLocationAtMostOne(vs[1..], location);
      }
    }
  }

  /** The two filters commute: narrowing to a date and then selecting a
      location gives the list that selecting first and narrowing second gives. */
  lemma {:induction false} FiltersCommute(vs: seq<VenueWithEvents>, date: string, location: string)
    ensures KeepLocation(NarrowToDate(vs, date), location) ==
            NarrowToDate(KeepLocation(vs, location), date)
  {
    if |vs| > 0 {
      FiltersCommute(vs[1..], date, location);
    }
  }

  /** The dates of a list of events (`venue.events.map((event) => event.date)`). */
  function Dates(events: seq<EventRef>): (r: seq<string>)
    ensures forall d :: d in r <==> exists e | e in events :: e.date == d
  {
    if |events| == 0 then []
    else
      assert events == [events[0]] + events[1..];
      [events[0].date] + Dates(events[1..])
  }

  /** `getVenueDates`: the distinct dates of a venue's events, sorted. */
  function VenueDates(v: VenueWithEvents): (r: seq<string>)
    ensures StrictlySorted(r)
    ensures forall d :: d in r <==> exists e | e in v.events :: e.date == d
  {
    var r := SortedSet(Dates(v.events));
    assert forall d :: d in r <==> d in Elements(r);
    assert forall d :: d in Dates(v.events) <==> d in Elements(Dates(v.events));
    r
  }

  /** The popup groups a venue's events by the dates `VenueDates` lists:
      each listed date has at least one event, and each event is shown
      under its own date. */
  lemma PopupGroupsCoverEvents(v: VenueWithEvents)
    ensures forall d | d in VenueDates(v) :: |EventsOn(v.events, d)| > 0
    ensures forall e | e in v.events :: e.date in VenueDates(v) && e in EventsOn(v.events, e.date)
  {
    forall d | d in VenueDates(v)
      ensures |EventsOn(v.events, d)| > 0
    {
      var e :| e in v.events && e.date == d;
      assert e in EventsOn(v.events, d);
    }
  }

  /** `event.venue[0]` for a list, the venue itself otherwise; an empty list
      yields `undefined` (`None`). */
  function FirstVenue(f: VenueField): (r: Option<string>)
    ensures r.Some? <==> |VenueList(f)| > 0
    ensures r.Some? ==> r.value == VenueList(f)[0]
  {
    match f
    case Single(v) => Some(v)
    case Several(vs) => if |vs| > 0 then Some(vs[0]) else None
  }

  /** The `isClickable` test of a schedule-list event row. `None` stands for
      the `TypeError` raised when `isTBA` lower-cases the `undefined` first
      venue of an empty venue list. */
  function Clickability(e: Event): (r: Option<bool>)
    ensures r.None? <==> |VenueList(e.venue)| == 0
    ensures r == Some(true) <==>
      && |VenueList(e.venue)| > 0
      && !IsTBA(VenueList(e.venue)[0])
      && !IsTBA(e.time)
      && Resolve(VenueList(e.venue)[0]).Some?
  {
    match FirstVenue(e.venue)
    case None => None
    case Some(v) => Some(!IsTBA(v) && !IsTBA(e.time) && Resolve(v).Some?)
  }

  /** A clickable event's first venue is on the map: it is offered by the
      location selector, and its aggregated entry lists the event at the
      coordinates the click pans to. */
  lemma ClickableEventIsOnMap(data: ScheduleData, d: int, k: int)
    requires 0 <= d < |data.schedule| && 0 <= k < |data.schedule[d].events|
    requires Clickability(data.schedule[d].events[k]) == Some(true)
    ensures var e := data.schedule[d].events[k];
      var v := VenueList(e.venue)[0];
      && v in UniqueVenues(data)
      && exists i | 0 <= i < |AggregateVenues(data)| ::
           && AggregateVenues(data)[i].venueName == v
           && AggregateVenues(data)[i].location == Resolve(v).value
           && EventRef(e.name, data.schedule[d].date, e.time) in AggregateVenues(data)[i].events
  {
    var e := data.schedule[d].events[k];
    var v := VenueList(e.venue)[0];
    assert NamesVenue(data.schedule, d, k, v);
    EventListedUnderEachVenue(data, d, k, v);
  }

  /** The day filter of the schedule list: every day when no date is selected, otherwise the days on that date. */
  function VisibleDays(days: seq<DaySchedule>, date: string): (r: seq<DaySchedule>)
    ensures date == "" ==> r == days
    ensures date != "" ==> forall i | 0 <= i < |r| :: r[i].date == date
    ensures IsSubsequence(r, days)
    ensures forall day ::
      multiset(r)[day] == (if date == "" || day.date == date then multiset(days)[day] else 0)
  {
    if |days| == 0 then []
    else
      var rest := VisibleDays(days[1..], date);
      assert days == [days[0]] + days[1..];
      if date == "" || days[0].date == date then
        SubsequenceReflexive(days);
        [days[0]] + rest
      else
        rest
  }

  /** The day filter keeps every copy of a shown day and no copy of any other. */
  /** Every event a filtered venue shows is an event of the unfiltered venue
      of the same name, and lies on the selected date when there is one. */
  lemma FilteredEventSource(vs: seq<VenueWithEvents>, date: string, location: string,
                            w: VenueWithEvents, ref: EventRef)
    requires w in FilteredVenues(vs, date, location) && ref in w.events
    ensures exists j | 0 <= j < |vs| :: vs[j].venueName == w.venueName && ref in vs[j].events
    ensures date != "" ==> ref.date == date
  {
    var byDate := if date != "" then NarrowToDate(vs, date) else vs;
    assert w in byDate;
    var source: VenueWithEvents;
    if date != "" {
      NarrowToDateMembers(vs, date, w);
      var v :| v in vs && w == Narrow(v, date) && |w.events| > 0;
      source := v;
    } else {
      source := w;
    }
    assert source in vs && source.venueName == w.venueName && ref in source.events;
    var j :| 0 <= j < |vs| && vs[j] == source;
  }

  /** The map and the list agree: every event a filtered venue shows comes
      from a day the list shows, from an event naming that venue. */
  lemma ListAndMapAgree(data: ScheduleData, date: string, location: string, i: int, ref: EventRef)
    requires 0 <= i < |FilteredVenues(AggregateVenues(data), date, location)|
    requires ref in FilteredVenues(AggregateVenues(data), date, location)[i].events
    ensures var name := FilteredVenues(AggregateVenues(data), date, location)[i].venueName;
      exists d, k :: && IsVisit(data.schedule, d, k, Occurrence(name, ref))
                     && data.schedule[d] in VisibleDays(data.schedule, date)
  {
    var vs := AggregateVenues(data);
    var w := FilteredVenues(vs, date, location)[i];
    FilteredEventSource(vs, date, location, w, ref);
    var j :| 0 <= j < |vs| && vs[j].venueName == w.venueName && ref in vs[j].events;
    AggregatedEventsExactly(data, j, ref);
    var d, k :| IsVisit(data.schedule, d, k, Occurrence(w.venueName, ref));
    assert data.schedule[d].date == ref.date;
    assert data.schedule[d] in multiset(data.schedule);
  }
}
