/**
 * Concrete scenarios: a resolvable venue, a placeholder venue and an
 * unresolvable venue, followed through aggregation and the filters.
 */
module Examples {
  import opened Wrappers
  import opened Text
  import opened StringOrder
  import opened Venues
  import opened Schedule
  import opened Filters

  const Basilica := "Basilica del Sto. Nino"
  const OpeningMass := Event("Opening Mass", "6:00 AM", Single(Basilica), None)
  const OpeningDay := DaySchedule("2025-01-15", None, [OpeningMass])
  const OneEvent := ScheduleData("Sinulog 2025", "Pit Senyor", [OpeningDay])

  /** The lower-cased basilica name, split before its only `t`. */
  lemma LowerBasilica()
    ensures Lower(Basilica) == "basilica del s" + "to. nino"
  {
    assert Basilica == "Basilica del S" + "to. Nino";
    LowerConcat("Basilica del S", "to. Nino");
    assert Lower("Basilica del S") == "basilica del s";
    assert Lower("to. Nino") == "to. nino";
  }

  /** "Basilica del Sto. Nino" is no placeholder: its only `t` is followed by
      `o`, and it has no `u`. */
  lemma BasilicaNotPlaceholder()
    ensures !IsTBA(Basilica)
  {
    LowerBasilica();
    var h := Lower(Basilica);
    assert "tba"[1] !in "to. nino";
    MissingCharNotContained("to. nino", "tba", 1);
    assert "tba"[0] !in "basilica del s";
    NotContainedAcrossSplit("basilica del s", "to. nino", "tba");
    assert "to be announced"[10] !in h;
    MissingCharNotContained(h, "to be announced", 10);
    IsTBAIff(Basilica);
  }

  /** "Basilica del Sto. Nino" is no placeholder and resolves to its own key. */
  lemma BasilicaAccepted()
    ensures Resolve(Basilica) == Some(Location(10.2929, 123.9021))
    ensures Accepted(Basilica)
  {
    ResolveTableKey(2);
    assert Table[2].name == Basilica;
    BasilicaNotPlaceholder();
  }

  const MassRef := EventRef("Opening Mass", "2025-01-15", "6:00 AM")
  const BasilicaEntry := VenueWithEvents(Location(10.2929, 123.9021), Basilica, [MassRef])

  /** The schedule makes a single visit: the mass at the basilica. */
  lemma OneEventOccurrences()
    ensures Occurrences(OneEvent.schedule) == [Occurrence(Basilica, MassRef)]
  {
    var o := Occurrence(Basilica, MassRef);
    assert EventOccurrences("2025-01-15", OpeningMass) == [o];
    assert DayOccurrences("2025-01-15", [OpeningMass]) == [o] + [];
    assert Occurrences(OneEvent.schedule) == [o] + Occurrences([]);
  }

  /** The map shows the basilica alone, with the mass. */
  lemma OneEventAggregate()
    ensures AggregateVenues(OneEvent) == [BasilicaEntry]
  {
    BasilicaAccepted();
    OneEventOccurrences();
    var o := Occurrence(Basilica, MassRef);
    assert [o][..0] == [];
    assert Aggregate([o]) == Visit([], o);
    assert IndexOfVenue([], Basilica) == -1;
  }

  /** Selecting the mass's day keeps the basilica, selecting another day
      leaves nothing, and selecting the basilica keeps it. */
  lemma OneEventFilters()
    ensures FilteredVenues([BasilicaEntry], "2025-01-15", "") == [BasilicaEntry]
    ensures FilteredVenues([BasilicaEntry], "2025-01-16", "") == []
    ensures FilteredVenues([BasilicaEntry], "", Basilica) == [BasilicaEntry]
  {
    assert EventsOn([MassRef], "2025-01-15") == [MassRef];
    assert EventsOn([MassRef], "2025-01-16") == [];
    assert NarrowToDate([BasilicaEntry], "2025-01-15") == [BasilicaEntry] + NarrowToDate([], "2025-01-15");
  }

  /** The whole scenario: one event at the basilica on 2025-01-15. */
  lemma OpeningMassScenario()
    ensures AggregateVenues(OneEvent) == [BasilicaEntry]
    ensures FilteredVenues(AggregateVenues(OneEvent), "2025-01-15", "") == [BasilicaEntry]
    ensures FilteredVenues(AggregateVenues(OneEvent), "2025-01-16", "") == []
    ensures UniqueVenues(OneEvent) == [Basilica]
  {
    OneEventAggregate();
    OneEventFilters();
    UniqueVenuesAreAggregatedNames(OneEvent);
    assert Names([BasilicaEntry]) == [Basilica];
    assert Sort([Basilica]) == [Basilica];
  }

  const Undisclosed := "Undisclosed venue TBA"
  const FluvialParade := Event("Fluvial Parade", "TBA", Single(Undisclosed), None)
  const StreetParty := Event("Street Party", "8:00 PM", Single("Oz"), None)
  const MixedDay := DaySchedule("2025-01-16", None, [OpeningMass, FluvialParade, StreetParty])
  const Mixed := ScheduleData("Sinulog 2025", "Pit Senyor", [MixedDay])

  /** "Undisclosed venue TBA" is a placeholder. */
  lemma UndisclosedIsPlaceholder()
    ensures IsTBA(Undisclosed)
  {
    assert Undisclosed == "Undisclosed venue " + "TBA";
    LowerConcat("Undisclosed venue ", "TBA");
    var h := Lower(Undisclosed);
    assert Lower("TBA") == "tba";
    assert OccursAt(h, "tba", 18);
    IsTBAIff(Undisclosed);
  }

  /** The venues the mixed day names. */
  lemma MixedListed(v: string)
    ensures Listed(Mixed.schedule, v) <==> v == Basilica || v == Undisclosed || v == "Oz"
  {
    if v == Basilica {
      assert NamesVenue(Mixed.schedule, 0, 0, v);
    } else if v == Undisclosed {
      assert NamesVenue(Mixed.schedule, 0, 1, v);
    } else if v == "Oz" {
      assert NamesVenue(Mixed.schedule, 0, 2, v);
    }
    if Listed(Mixed.schedule, v) {
      var d, k :| 0 <= d < |Mixed.schedule| && 0 <= k < |Mixed.schedule[d].events|
                  && NamesVenue(Mixed.schedule, d, k, v);
      assert d == 0;
      assert k == 0 || k == 1 || k == 2;
    }
  }

  /** Of the mixed day's venues only the basilica is kept. */
  lemma MixedAccepted(v: string)
    ensures Accepted(v) && Listed(Mixed.schedule, v) <==> v == Basilica
  {
    BasilicaAccepted();
    UndisclosedIsPlaceholder();
    ShortNamesUnresolvable("Oz");
    MixedListed(v);
  }

  /** A resolvable, a placeholder and an unresolvable venue on one day: only
      the resolvable one reaches the map and the location selector. */
  lemma MixedVenuesScenario()
    ensures forall v :: v in Names(AggregateVenues(Mixed)) <==> v == Basilica
    ensures forall v :: v in UniqueVenues(Mixed) <==> v == Basilica
  {
    forall v
      ensures v in Names(AggregateVenues(Mixed)) <==> v == Basilica
      ensures v in UniqueVenues(Mixed) <==> v == Basilica
    {
      MixedAccepted(v);
    }
  }

  /** The mass's time is an actual time. */
  lemma MassTimeAnnounced()
    ensures !IsTBA("6:00 AM")
  {
    var h := Lower("6:00 AM");
    assert h == "6:00 am";
    assert "tba"[0] !in h;
    MissingCharNotContained(h, "tba", 0);
    ContainsLength(h, "to be announced");
    IsTBAIff("6:00 AM");
  }

  /** Only the mass's row is clickable: the parade's venue is a placeholder
      and the party's venue resolves to nothing. */
  lemma MixedClickability()
    ensures Clickability(FluvialParade) == Some(false)
    ensures Clickability(StreetParty) == Some(false)
    ensures Clickability(OpeningMass) == Some(true)
  {
    UndisclosedIsPlaceholder();
    assert Clickability(FluvialParade) == Some(false);
    ShortNamesUnresolvable("Oz");
    assert Clickability(StreetParty) == Some(false);
    BasilicaAccepted();
    MassTimeAnnounced();
  }
}
