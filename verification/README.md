# Sinulog 2025 event map: venue matching, aggregation and filters

A Dafny model of the pure layer inside the event-map page of the Sinulog 2025
schedule site. The page lists the festival's days and events and places each
event's venue on a map. It does this in five steps:

- **Placeholder test.** `isTBA` flags a venue or time as "to be announced": one of three phrases occurs in it, ignoring case.
- **Venue lookup.** `getVenueCoordinates` looks a free-text venue up in a fixed table of 13 Cebu venues. An exact key wins. Otherwise the first key, in table order, whose lower-cased form occurs in the lower-cased venue wins. Otherwise the result is `null`.
- **Aggregation.** The mount effect walks every day, event and listed venue. It builds one entry per distinct resolvable, non-placeholder venue, in first-seen order, and appends each event there in schedule order.
- **Venue selector.** `uniqueVenues` is the sorted, duplicate-free list of those venue names.
- **Derived views.** `filteredVenues` narrows the entries to a selected date and/or venue name. `getVenueDates` lists a venue's dates for its popup. An event row is clickable when its first venue and its time are real and the venue resolves. The schedule list shows every day, or only the selected one.

Modules, in dependency order:

- `Wrappers` holds `Option`.
- `Text` holds lower-casing and `includes` (`Contains`).
- `StringOrder` holds the string order, `Array.prototype.sort` and the `Array.from(new Set(xs))` idiom (`Dedup`, `SortedSet`).
- `Venues` holds the table, `IsTBA` and resolution.
- `Schedule` holds the schedule data, the aggregation and `uniqueVenues`.
- `Filters` holds the derived views.
- `Examples` holds two concrete schedules worked through.

Resolution is defined over any table (`ResolveIn`) and instantiated with the page's literal table (`Resolve`).

The aggregation is modelled as a fold over the flattened list of visits:

- `Occurrences` flattens every (venue, event) pair in schedule order.
- `Visit` is one pass of the innermost loop body.
- `Aggregate` folds `Visit` over the visits.
- `AggregatedFrom` is the invariant the fold keeps.

A venue that contains two keys gets the coordinates of the key listed first in the table, whatever the order of the keys in the venue. `FirstKeyInTableWins` exhibits one.

## Model

| member | source | states |
|---|---|---|
| Text.Lower | pages/index.tsx:78 | lower-casing keeps the length, turns each ASCII capital into its small letter, leaves no ASCII capital, and keeps every character that is neither an ASCII nor a Latin-1 capital |
| Text.ContainsTransitive | pages/index.tsx:78 | a needle of a needle of a text occurs in the text, as `includes` does |
| Venues.IsTBAIff | pages/index.tsx:75-80 | a text is a placeholder exactly when its lower-cased form contains "tba" or "to be announced"; the third phrase adds nothing, because it contains the second |
| Venues.IsTBACaseInsensitive | pages/index.tsx:75-80 | texts with the same lower-cased form are classified alike, and lower-casing does not change the class |
| Venues.ExactEntrySpec | pages/index.tsx:103-105 | the exact step finds the entry keyed by the venue, and finds nothing exactly when no key equals the venue |
| Venues.FirstContainedSpec | pages/index.tsx:107-113 | the fallback returns the first entry in table order whose lower-cased key occurs in the lower-cased venue, and nothing exactly when no key occurs there |
| Venues.ResolveInSpec | pages/index.tsx:83-116 | over any table: an exact key wins; otherwise the first contained key wins; the result is null exactly when no key matches either way; any result is a location stored in the table |
| Venues.ResolveInOwnKey | pages/index.tsx:103-105 | in any table with pairwise different keys, each key resolves to the location stored under it |
| Venues.ResolveTableKey | pages/index.tsx:103-105 | every key of the page's table resolves to its own coordinates |
| Venues.ShortNamesUnresolvable | pages/index.tsx:86-99 | every key has at least three characters, so no venue shorter than that resolves |
| Venues.FirstKeyInTableWins | pages/index.tsx:107-113 | a venue naming both "SM City Cebu" and "SM Seaside Cebu" contains both keys but gets the coordinates of the key listed first, not those of the other |
| Venues.NoKeyUnresolved | pages/index.tsx:102-115 | a venue that equals no key and contains no key resolves to null |
| Venues.ResolveAsWritten | pages/index.tsx:103-104 | the exact step as written tests the lookup for truthiness: inherited Object.prototype names come back as a non-location value, and every other venue resolves as the own-key lookup does |
| Venues.InheritedNameResolvesAsWritten | pages/index.tsx:103-104 | the venue "constructor" gets a non-null non-location from the lookup as written, while the own-key lookup answers null |
| Venues.ConstructorUnresolved | pages/index.tsx:102-115 | "constructor" is no key and contains none, so the own-key lookup finds nothing for it |
| StringOrder.Insert | pages/index.tsx:201 | inserting into a sorted list keeps it sorted and adds exactly the one element |
| StringOrder.Sort | pages/index.tsx:201 | the default sort yields a sorted permutation of its input |
| StringOrder.Dedup | pages/index.tsx:188-201 | iterating a Set built from a list yields each element once, and exactly the list's elements |
| StringOrder.SortedSet | pages/index.tsx:201 | sorting the deduplicated list gives a strictly increasing list with the same elements |
| StringOrder.StrictlySortedUnique | pages/index.tsx:201 | two strictly increasing lists with the same elements are equal, so any correct sort of distinct strings gives the same answer |
| StringOrder.LessTotal | pages/index.tsx:201 | any two different strings are ordered one way or the other |
| StringOrder.LessTransitive | pages/index.tsx:201 | the string order is transitive |
| Schedule.DayOccurrences | pages/index.tsx:141-144 | the visits of a day are exactly the pairs of an event of that day with one of its listed venues |
| Schedule.Occurrences | pages/index.tsx:140-144 | the visits of the schedule are exactly the pairs of an event of some day with one of its listed venues |
| Schedule.IndexOfVenue | pages/index.tsx:148-156 | the position of the entry with a given name is found exactly when such an entry exists, and -1 exactly when none does |
| Schedule.Aggregate | pages/index.tsx:137-167 | after any prefix of the visits, the entries are the kept venues once each in first-visit order, each with its resolved location and exactly the events that visited it |
| Schedule.EventsAtEmpty | pages/index.tsx:148-160 | a kept venue has collected no event exactly when it has not yet been visited |
| Schedule.AcceptedVenuesMembers | pages/index.tsx:145-147 | a venue is kept exactly when it is no placeholder, resolves and has been visited |
| Schedule.EventsAtMembers | pages/index.tsx:156-160 | an event is listed under a venue exactly when it visited that venue |
| Schedule.VisitedIffListed | pages/index.tsx:140-144 | a venue is visited exactly when some event of the schedule names it |
| Schedule.AggregateVenues | pages/index.tsx:137-167 | every entry is no placeholder, stores the coordinates its name resolves to and has an event; names are pairwise distinct; a name is present exactly when it is kept and some event names it |
| Schedule.AggregatedEventsExactly | pages/index.tsx:140-160 | an entry's events are the visits of its venue in schedule order, and an event is listed exactly when a scheduled event with that name, date and time names the venue |
| Schedule.EventListedUnderEachVenue | pages/index.tsx:142-160 | a multi-venue event appears under each of its kept venues |
| Schedule.UniqueVenues | pages/index.tsx:187-202 | the selector's list is strictly increasing, so it has no duplicates, and holds exactly the kept venues some event names |
| Schedule.UniqueVenuesAreAggregatedNames | pages/index.tsx:187-202 | the selector's list is the sorted list of the aggregated venue names, and as a set equals them |
| Filters.SubsequenceTransitive | pages/index.tsx:205-224 | a subsequence of a subsequence is a subsequence |
| Filters.EventsOn | pages/index.tsx:212 | filtering events by date keeps only events on that date, every such event, in order |
| Filters.EventsOnCounts | pages/index.tsx:212 | filtering events by date keeps every copy of an event on that date and no copy of any other |
| Filters.NarrowToDate | pages/index.tsx:208-215 | after the date step every venue has an event and all its events are on the date; the names are a subsequence of the input's |
| Filters.NarrowToDateMembers | pages/index.tsx:208-215 | a venue survives the date step exactly when it is an input venue narrowed to the date that still has an event |
| Filters.KeepLocation | pages/index.tsx:217-221 | the location step keeps only venues with that name, every such venue, as a subsequence |
| Filters.KeepLocationCounts | pages/index.tsx:217-221 | the location step keeps every copy of a venue with that name and no copy of any other |
| Filters.FilteredVenues | pages/index.tsx:205-224 | with no selection the list is unchanged; with a date, every remaining venue has events, all on that date; with a location, every remaining venue has that name; the names always form a subsequence of the input names |
| Filters.FilteredVenuesMembers | pages/index.tsx:205-224 | a venue is in the filtered list exactly when it has the selected name (any name when none is selected) and is an input venue, unchanged when no date is selected, or narrowed to the selected date with at least one event left |
| Filters.FilteredEventSource | pages/index.tsx:205-224 | every event a filtered venue shows is an event of the unfiltered venue of that name, on the selected date when there is one |
| Filters.KeepLocationAbsent | pages/index.tsx:217-221 | selecting a name absent from the list leaves nothing |
| Filters.SubsequenceDistinct | pages/index.tsx:205-224 | a subsequence of a duplicate-free list is duplicate-free |
| Filters.LocationSelectsAtMostOne | pages/index.tsx:205-224 | over a list with distinct names, selecting a location leaves at most one venue |
| Filters.KeepLocationAtMostOne | pages/index.tsx:217-221 | over distinct names, the location step keeps at most one venue |
| Filters.FiltersCommute | pages/index.tsx:205-224 | applying the date step before the location step gives the same list as the other order |
| Filters.Dates | pages/index.tsx:228 | the dates listed for a venue's events are exactly the dates some event carries |
| Filters.VenueDates | pages/index.tsx:227-230 | the popup's dates are strictly increasing, and exactly the dates of the venue's events |
| Filters.PopupGroupsCoverEvents | pages/index.tsx:374-377 | every listed date has an event in the popup, and every event appears under its own date |
| Filters.FirstVenue | pages/index.tsx:293-295 | the first venue of an event exists exactly when its venue list is non-empty, and is the list's first element; an empty list gives `undefined` |
| Filters.Clickability | pages/index.tsx:293-300 | a row is clickable exactly when its first venue and its time are no placeholders and the venue resolves; an empty venue list makes the test fail with an error |
| Filters.ClickableEventIsOnMap | pages/index.tsx:293-300 | a clickable event's venue is offered by the selector, and its aggregated entry lists the event at the coordinates the click pans to |
| Filters.VisibleDays | pages/index.tsx:280 | with no date every day is shown; with a date only days on that date are shown, in order; every copy of a shown day is kept and no copy of any other |
| Filters.ListAndMapAgree | pages/index.tsx:205-224 | every event a filtered venue shows comes from an event that names the venue on a day the schedule list shows |
| Examples.BasilicaAccepted | pages/index.tsx:88 | "Basilica del Sto. Nino" is no placeholder and resolves to 10.2929, 123.9021 |
| Examples.UndisclosedIsPlaceholder | pages/index.tsx:75-80 | "Undisclosed venue TBA" is a placeholder |
| Examples.OpeningMassScenario | pages/index.tsx:137-230 | a one-event schedule gives one map entry; the entry survives its own date and disappears on another; the selector offers just its venue |
| Examples.MixedVenuesScenario | pages/index.tsx:137-202 | with a resolvable, a placeholder and an unknown venue on one day, only the resolvable one reaches the map and the selector |
| Examples.MixedClickability | pages/index.tsx:293-300 | a row with time "TBA" and a row at an unknown venue are not clickable; the row at the basilica is |

## Left out

- React state and hooks (`useState`, `useEffect`, `useMemo`, `useCallback`) and the JSX markup. Each computed value is a function of its inputs: the schedule, the selected date and the selected location.
- The Google Maps integration: the script loader, the map, markers, info windows, `panTo`/`setZoom` and `onMapLoad`. These are foreign library calls. `handleEventClick` (lines 174-184) only feeds them; its lookup is `Resolve` on the first venue.
- Marker visibility and the popup condition (lines 356 and 366). Both compare `selectedEvent.venue` with a venue name. For a multi-venue event that field is an array, which never equals a string. While such an event is selected, the visibility test fails for every marker, so the whole map is left without markers, and no popup opens through the selected event. This is an observation about display code and is not modelled.
- `getStaticProps` and the JSON import (lines 118-125). This is build-time I/O; the schedule is a parameter.
- Date display through `toLocaleDateString`. It depends on locale and time zone. Dates stay opaque strings compared by equality.
- Coordinate values, `CEBU_CENTER` and zoom levels. Locations are `real` pairs copied from the table and never computed with.
- The API key and its environment fallback. This is configuration.
- `description` and `dateRange` are carried in the data types. No modelled operation reads them.
- Text.Lower: `toLowerCase` is modelled per character for ASCII and the Latin-1 capitals U+00C0..U+00DE (so `Ñ` becomes `ñ`). Every case mapping outside ASCII and U+00C0..U+00DE is left out and those characters are kept unchanged, including single-character Latin ones such as `Ł` to `ł` or `Ā` to `ā`, fullwidth letters, other scripts, and multi-character or context-dependent mappings.
- StringOrder.Less: `Array.prototype.sort` compares UTF-16 code units. The model compares Dafny characters, which is the same order for every string outside the astral planes.
- Schedule.Aggregate: the source's `venueMap.get(venue)?.events.push` mutates the entry in place. The model rebuilds the list functionally and states the same result.

## Findings

| source | as written | input that shows it | evidently intended | confidence | as-written member | corrected member |
|---|---|---|---|---|---|---|
| pages/index.tsx:103-104 | the exact step tests `venueMap[venue]` for truthiness on a plain object literal, so names inherited from `Object.prototype` pass and their function value is returned as a location | venue "constructor" (also "toString", "valueOf", "hasOwnProperty", ...) | only the table's own keys match exactly; other venues fall through to the containment search and, failing it, to `null` | high for the lookup result, not executed | Venues.InheritedNameResolvesAsWritten | Venues.ResolveInSpec |

With the code as written, the aggregation would add such a venue to the map with an undefined latitude and longitude. The clickable test would also accept it. Every other member of the model uses the corrected own-key lookup. `Venues.ResolveInSpec` proves that this lookup only ever returns a location stored in the table. `Venues.ConstructorUnresolved` shows that it answers `null` for "constructor".
