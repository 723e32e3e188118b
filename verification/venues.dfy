/**
 * Venue classification and resolution: the "to be announced" test and the
 * lookup of a free-text venue name in the fixed name-to-coordinate table,
 * exact key first, then the first key (in table order) whose lower-cased form
 * occurs in the lower-cased venue.
 */
module Venues {
  import opened Wrappers
  import opened Text

  /** A latitude/longitude pair; no arithmetic is ever done on it. */
  datatype Location = Location(lat: real, lng: real)

  /** One row of the venue table. */
  datatype VenueEntry = VenueEntry(name: string, location: Location)

  /** The venue table, in the order its keys were written. */
  const Table: seq<VenueEntry> := [
    VenueEntry("SM Seaside Cebu", Location(10.2791, 123.8585)),
    VenueEntry("GMall", Location(10.3127, 123.8854)),
    VenueEntry("Basilica del Sto. Nino", Location(10.2929, 123.9021)),
    VenueEntry("Fuente Osmeña", Location(10.3116, 123.8913)),
    VenueEntry("Plaza Independencia", Location(10.2925, 123.9021)),
    VenueEntry("Cebu City Sports Complex", Location(10.3095, 123.8862)),
    VenueEntry("MCIAA T1", Location(10.3075, 123.9789)),
    VenueEntry("Ayala Center Cebu", Location(10.3187, 123.9048)),
    VenueEntry("SM City Cebu", Location(10.3119, 123.9178)),
    VenueEntry("Basilica Minore del Sto. Niño", Location(10.2929, 123.9021)),
    VenueEntry("Mandaue City", Location(10.3231, 123.9223)),
    VenueEntry("SRP", Location(10.2674, 123.8805)),
    VenueEntry("Pacific Grand Ballroom", Location(10.3142, 123.9163))
  ]

  /** The phrases that mark a venue or time as not yet announced. */
  const TbaPatterns: seq<string> := ["TBA", "to be announced", "Venue to be announced"]

  /** `isTBA`: some placeholder phrase occurs in the text, ignoring case. */
  predicate IsTBA(text: string) {
    exists p | p in TbaPatterns :: Contains(Lower(text), Lower(p))
  }

  /** Entry `i` is the first whose key is exactly `v`. */
  predicate IsFirstExact(t: seq<VenueEntry>, v: string, i: int) {
    0 <= i < |t| && t[i].name == v && forall j | 0 <= j < i :: t[j].name != v
  }

  /** Entry `i` is the first whose lower-cased key occurs in `lowered`. */
  predicate IsFirstContained(t: seq<VenueEntry>, lowered: string, i: int) {
    && 0 <= i < |t|
    && Contains(lowered, Lower(t[i].name))
    && forall j | 0 <= j < i :: !Contains(lowered, Lower(t[j].name))
  }

  /** The exact-key step: the location stored under key `v`, if any. */
  function ExactEntry(t: seq<VenueEntry>, v: string): Option<Location> {
    if |t| == 0 then None
    else if t[0].name == v then Some(t[0].location)
    else ExactEntry(t[1..], v)
  }

  /** The fallback step: the location of the first entry whose lower-cased
      key occurs in `lowered`, if any. */
  function FirstContained(t: seq<VenueEntry>, lowered: string): Option<Location> {
    if |t| == 0 then None
    else if Contains(lowered, Lower(t[0].name)) then Some(t[0].location)
    else FirstContained(t[1..], lowered)
  }

  /** The exact step finds the first entry keyed `v`, and nothing when no key is `v`. */
  lemma {:induction false} ExactEntrySpec(t: seq<VenueEntry>, v: string)
    ensures ExactEntry(t, v).None? <==> forall j | 0 <= j < |t| :: t[j].name != v
    ensures forall i | IsFirstExact(t, v, i) :: ExactEntry(t, v) == Some(t[i].location)
  {
    if |t| > 0 && t[0].name != v {
      ExactEntrySpec(t[1..], v);
      forall i | IsFirstExact(t, v, i)
        ensures ExactEntry(t, v) == Some(t[i].location)
      {
        assert IsFirstExact(t[1..], v, i - 1);
      }
      assert forall j | 0 < j < |t| :: t[j] == t[1..][j - 1];
    }
  }

  /** The fallback finds the first entry whose lower-cased key occurs in
      `lowered`, and nothing when no key occurs there. */
  lemma {:induction false} FirstContainedSpec(t: seq<VenueEntry>, lowered: string)
    ensures FirstContained(t, lowered).None? <==>
      forall j | 0 <= j < |t| :: !Contains(lowered, Lower(t[j].name))
    ensures forall i | IsFirstContained(t, lowered, i) :: FirstContained(t, lowered) == Some(t[i].location)
  {
    if |t| > 0 && !Contains(lowered, Lower(t[0].name)) {
      FirstContainedSpec(t[1..], lowered);
      forall i | IsFirstContained(t, lowered, i)
        ensures FirstContained(t, lowered) == Some(t[i].location)
      {
        assert IsFirstContained(t[1..], lowered, i - 1);
      }
      assert forall j | 0 < j < |t| :: t[j] == t[1..][j - 1];
    }
  }

  /** Both steps only ever hand back a location stored in the table. */
  lemma {:induction false} StepsReturnTableLocations(t: seq<VenueEntry>, v: string, lowered: string)
    ensures ExactEntry(t, v).Some? ==> exists i | 0 <= i < |t| :: ExactEntry(t, v).value == t[i].location
    ensures FirstContained(t, lowered).Some? ==>
      exists i | 0 <= i < |t| :: FirstContained(t, lowered).value == t[i].location
  {
    if |t| > 0 {
      StepsReturnTableLocations(t[1..], v, lowered);
      assert forall j | 0 <= j < |t| - 1 :: t[1..][j] == t[j + 1];
    }
  }

  /** `getVenueCoordinates` over an arbitrary table `t`. */
  function ResolveIn(t: seq<VenueEntry>, v: string): Option<Location> {
    match ExactEntry(t, v)
    case Some(loc) => Some(loc)
    case None => FirstContained(t, Lower(v))
  }

  /** Resolution: an exact key wins; otherwise the first key (in table
      order) occurring in the venue, ignoring case, wins; otherwise nothing.
      Whatever is found is a location from the table. */
  lemma ResolveInSpec(t: seq<VenueEntry>, v: string)
    ensures forall i | IsFirstExact(t, v, i) :: ResolveIn(t, v) == Some(t[i].location)
    ensures (forall j | 0 <= j < |t| :: t[j].name != v) ==>
      && (ResolveIn(t, v).None? <==> forall j | 0 <= j < |t| :: !Contains(Lower(v), Lower(t[j].name)))
      && forall i | IsFirstContained(t, Lower(v), i) :: ResolveIn(t, v) == Some(t[i].location)
    ensures ResolveIn(t, v).Some? ==> exists i | 0 <= i < |t| :: ResolveIn(t, v).value == t[i].location
  {
    ExactEntrySpec(t, v);
    FirstContainedSpec(t, Lower(v));
    StepsReturnTableLocations(t, v, Lower(v));
  }

  /** `getVenueCoordinates`: `None` stands for `null`. */
  function Resolve(v: string): Option<Location> {
    ResolveIn(Table, v)
  }

  /** A venue takes part in the map when it is not a placeholder and resolves. */
  predicate Accepted(v: string) {
    !IsTBA(v) && Resolve(v).Some?
  }

  /** Table keys are pairwise different, so "the first exact key" is "the key". */
  lemma TableNamesDistinct()
    ensures forall i, j | 0 <= i < j < |Table| :: Table[i].name != Table[j].name
  {
  }

  /** Every table key is at least three characters long. */
  lemma TableNamesLong()
    ensures forall i | 0 <= i < |Table| :: |Table[i].name| >= 3
  {
  }

  /** The lower-cased placeholder phrases. */
  lemma LowerPatterns()
    ensures Lower(TbaPatterns[0]) == "tba"
    ensures Lower(TbaPatterns[1]) == "to be announced"
    ensures Lower(TbaPatterns[2]) == "venue to be announced"
  {
  }

  /** The third phrase is redundant: it contains the second, so a text is a
      placeholder exactly when its lower-cased form contains "tba" or
      "to be announced". */
  lemma IsTBAIff(text: string)
    ensures IsTBA(text) <==> Contains(Lower(text), "tba") || Contains(Lower(text), "to be announced")
  {
    LowerPatterns();
    var h := Lower(text);
    assert OccursAt("venue to be announced", "to be announced", 6);
    if Contains(h, "venue to be announced") {
      ContainsTransitive(h, "venue to be announced", "to be announced");
    }
    if Contains(h, "tba") {
      assert TbaPatterns[0] in TbaPatterns;
    }
    if Contains(h, "to be announced") {
      assert TbaPatterns[1] in TbaPatterns;
    }
  }

  /** The placeholder test ignores case: texts with the same lower-cased form
      are classified alike, and lower-casing a text does not change its class. */
  lemma IsTBACaseInsensitive(v: string, w: string)
    requires Lower(v) == Lower(w)
    ensures IsTBA(v) == IsTBA(w)
    ensures IsTBA(Lower(v)) == IsTBA(v)
  {
    LowerIdempotent(v);
  }

  /** In a table with pairwise different keys, every key resolves to the
      location stored under it. */
  lemma ResolveInOwnKey(t: seq<VenueEntry>, i: int)
    requires forall a, b | 0 <= a < b < |t| :: t[a].name != t[b].name
    requires 0 <= i < |t|
    ensures ResolveIn(t, t[i].name) == Some(t[i].location)
  {
    assert IsFirstExact(t, t[i].name, i);
    ResolveInSpec(t, t[i].name);
  }

  /** An exact key of the page's table resolves to its own coordinates. */
  lemma ResolveTableKey(i: int)
    requires 0 <= i < |Table|
    ensures Resolve(Table[i].name) == Some(Table[i].location)
  {
    TableNamesDistinct();
    ResolveInOwnKey(Table, i);
  }

  /** No key is shorter than three characters, so no venue that short resolves. */
  lemma ShortNamesUnresolvable(v: string)
    requires |v| < 3
    ensures Resolve(v).None?
  {
    TableNamesLong();
    ResolveInSpec(Table, v);
    forall j | 0 <= j < |Table|
      ensures !Contains(Lower(v), Lower(Table[j].name))
    {
      ContainsLength(Lower(v), Lower(Table[j].name));
    }
  }

  /** First match wins over containment: a venue naming two table keys gets
      the coordinates of the key listed first in the table, even though it
      also contains the other key. */
  lemma FirstKeyInTableWins()
    ensures var v := Table[8].name + " & " + Table[0].name;
      && Contains(Lower(v), Lower(Table[8].name))
      && Contains(Lower(v), Lower(Table[0].name))
      && Resolve(v) == Some(Table[0].location)
      && Resolve(v) != Some(Table[8].location)
  {
    var v := Table[8].name + " & " + Table[0].name;
    TwoKeysOccur();
    TwoKeysIsNoKey();
    assert IsFirstContained(Table, Lower(v), 0);
    ResolveInSpec(Table, v);
  }

  /** Both keys occur in the lower-cased two-key venue. */
  lemma TwoKeysOccur()
    ensures var v := Table[8].name + " & " + Table[0].name;
      && Contains(Lower(v), Lower(Table[8].name))
      && Contains(Lower(v), Lower(Table[0].name))
  {
    var a, b := Table[8].name, Table[0].name;
    var v := a + " & " + b;
    LowerConcat(a + " & ", b);
    LowerConcat(a, " & ");
    assert Lower(v) == Lower(a) + Lower(" & ") + Lower(b);
    assert OccursAt(Lower(v), Lower(a), 0);
    assert OccursAt(Lower(v), Lower(b), |a| + 3);
  }

  /** The two-key venue is itself no key: it is longer than every key. */
  lemma TwoKeysIsNoKey()
    ensures forall j | 0 <= j < |Table| :: Table[j].name != Table[8].name + " & " + Table[0].name
  {
    assert |Table[8].name + " & " + Table[0].name| == 30;
  }

  /** Property names every JavaScript object literal inherits from `Object.prototype`. */
  const ObjectPrototypeMembers: seq<string> := [
    "constructor", "hasOwnProperty", "isPrototypeOf", "propertyIsEnumerable",
    "toLocaleString", "toString", "valueOf", "__proto__",
    "__defineGetter__", "__defineSetter__", "__lookupGetter__", "__lookupSetter__"
  ]

  /** What the source's lookup can hand back: a table location, an inherited
      member of `Object.prototype` (a function or object, truthy but not a
      location), or `null`. */
  datatype Lookup = Coordinates(location: Location) | InheritedMember(member: string) | Null

  /** The lookup as written: the exact step tests `venueMap[venue]` for
      truthiness, which also succeeds for the names of inherited members. */
  function ResolveAsWritten(v: string): (r: Lookup)
    ensures v !in ObjectPrototypeMembers ==>
      r == (if Resolve(v).Some? then Coordinates(Resolve(v).value) else Null)
    ensures v in ObjectPrototypeMembers ==> r == InheritedMember(v)
  {
    assert forall i, j | 0 <= i < |Table| && 0 <= j < |ObjectPrototypeMembers| ::
      Table[i].name != ObjectPrototypeMembers[j];
    ExactEntrySpec(Table, v);
    match ExactEntry(Table, v)
    case Some(loc) => Coordinates(loc)
    case None =>
      if v in ObjectPrototypeMembers then InheritedMember(v)
      else
        match FirstContained(Table, Lower(v))
        case Some(loc) => Coordinates(loc)
        case None => Null
  }

  /** A venue called "constructor" passes the source's exact-key test and is
      handed back as a non-null value that is no location, where the corrected
      lookup (`Resolve`) finds no key in it and answers `null`. */
  lemma InheritedNameResolvesAsWritten()
    ensures ResolveAsWritten("constructor") == InheritedMember("constructor")
    ensures Resolve("constructor") == None
  {
    assert "constructor" == ObjectPrototypeMembers[0];
    ConstructorUnresolved();
  }

  /** No table key is "constructor" and none occurs in it. */
  lemma ConstructorUnresolved()
    ensures Resolve("constructor") == None
  {
    ConstructorIsNoKey();
    forall j | 0 <= j < |Table|
      ensures !Contains(Lower("constructor"), Lower(Table[j].name))
    {
      ConstructorContainsNoKey(j);
    }
    NoKeyUnresolved(Table, "constructor");
  }

  /** A venue that is no key and contains no key resolves to nothing. */
  lemma NoKeyUnresolved(t: seq<VenueEntry>, v: string)
    requires forall j | 0 <= j < |t| :: t[j].name != v
    requires forall j | 0 <= j < |t| :: !Contains(Lower(v), Lower(t[j].name))
    ensures ResolveIn(t, v) == None
  {
    ExactEntrySpec(t, v);
    FirstContainedSpec(t, Lower(v));
  }

  /** "constructor" is not a key of the table. */
  lemma ConstructorIsNoKey()
    ensures forall j | 0 <= j < |Table| :: Table[j].name != "constructor"
  {
  }

  /** Each key is either longer than "constructor" or holds a letter it lacks. */
  lemma ConstructorContainsNoKey(j: int)
    requires 0 <= j < |Table|
    ensures !Contains(Lower("constructor"), Lower(Table[j].name))
  {
    var v, key := "constructor", Lower(Table[j].name);
    assert Lower(v) == v;
    ContainsLength(v, key);
    if j == 1 {
      assert key[0] == 'g';
      MissingCharNotContained(v, key, 0);
    } else if j == 6 {
      assert key[0] == 'm';
      MissingCharNotContained(v, key, 0);
    } else if j == 11 {
      assert key[2] == 'p';
      MissingCharNotContained(v, key, 2);
    }
  }
}
