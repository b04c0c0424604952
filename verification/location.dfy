/**
 * The validation rules of a `Geolocation::Location` record: the two
 * coordinate validator classes and the `validates` declarations of the
 * model. Every rule is a function of the candidate record (and, for the
 * uniqueness rule, of the records already stored) that yields the messages
 * it adds under its own attribute; `Errors` runs them in declaration order
 * and collects the messages into `errors.messages`.
 */
module LocationValidation {
  import opened Wrappers
  import opened Strings

  /** The attributes of a location that can carry error messages. */
  datatype Field = IpAddress | CountryCode | Country | City | Latitude | Longitude | MysteryValue

  /** `record.errors.messages`: attribute to the messages added under it. */
  type Messages = map<Field, seq<string>>

  /**
   * A location as ActiveRecord holds it after type casting: `ip_address` is
   * the `inet` value (nil when the assigned text was not an address),
   * `latitude`/`longitude` are floats and `mystery_value` an integer; every
   * attribute may be nil.
   */
  datatype Location = Location(
    ipAddress: Option<string>,
    countryCode: Option<string>,
    country: Option<string>,
    city: Option<string>,
    latitude: Option<real>,
    longitude: Option<real>,
    mysteryValue: Option<int>)

  const LatitudeMessage := "must lie between -90 and +90"
  const LongitudeMessage := "must lie between -180 and +180"
  const BlankMessage := "can't be blank"
  const FormatMessage := "only allows two letters"
  const TakenMessage := "has already been taken"

  /** The one message each attribute can receive. */
  function MessageFor(f: Field): string {
    match f
    case IpAddress => BlankMessage
    case Country => BlankMessage
    case CountryCode => FormatMessage
    case City => TakenMessage
    case Latitude => LatitudeMessage
    case Longitude => LongitudeMessage
    case MysteryValue => BlankMessage
  }

  /**
   * A character of the class `[A-Z]` under the `i` flag. Ruby's regular
   * expressions fold case by Unicode's rules, so besides the ASCII letters
   * the class matches KELVIN SIGN (U+212A, folding to `k`) and LATIN SMALL
   * LETTER LONG S (U+017F, folding to `s`).
   */
  predicate IsCaselessLetter(c: char) {
    ('A' <= c <= 'Z') || ('a' <= c <= 'z') || c == '\U{212A}' || c == '\U{17F}'
  }

  /** `s =~ /\A[A-Z][A-Z]\z/i`. */
  predicate TwoLetters(s: string) {
    |s| == 2 && IsCaselessLetter(s[0]) && IsCaselessLetter(s[1])
  }

  /** The uniqueness scope of `city`: the city with its country code and country. */
  predicate SameScope(a: Location, b: Location) {
    a.city == b.city && a.countryCode == b.countryCode && a.country == b.country
  }

  /** Some stored record has the same city, country code and country. */
  predicate Taken(loc: Location, stored: seq<Location>) {
    exists k :: 0 <= k < |stored| && SameScope(stored[k], loc)
  }

  // ---------------------------------------------------------------------
  // The rules, one per validator, each yielding the messages it adds.
  // ---------------------------------------------------------------------

  /**
   * `LatitudeValidator`: a latitude that is present and lies below -90 or
   * above 90 gets the latitude message; any other, nil included, gets none.
   */
  function LatitudeRule(loc: Location): (msgs: seq<string>)
    ensures msgs == [] || msgs == [LatitudeMessage]
    ensures msgs != [] <==> loc.latitude.Some? && !(-90.0 <= loc.latitude.value <= 90.0)
  {
    if loc.latitude.Some? && (loc.latitude.value < -90.0 || loc.latitude.value > 90.0)
    then [LatitudeMessage] else []
  }

  /**
   * `LongitudeValidator`: a longitude that is present and lies below -180 or
   * above 180 gets the longitude message; any other, nil included, gets none.
   */
  function LongitudeRule(loc: Location): (msgs: seq<string>)
    ensures msgs == [] || msgs == [LongitudeMessage]
    ensures msgs != [] <==> loc.longitude.Some? && !(-180.0 <= loc.longitude.value <= 180.0)
  {
    if loc.longitude.Some? && (loc.longitude.value < -180.0 || loc.longitude.value > 180.0)
    then [LongitudeMessage] else []
  }

  /** `presence: true`: a blank value gets "can't be blank", a present one nothing. */
  function PresenceRule(isBlank: bool): (msgs: seq<string>)
    ensures msgs == [] || msgs == [BlankMessage]
    ensures msgs != [] <==> isBlank
  {
    if isBlank then [BlankMessage] else []
  }

  /**
   * `presence: true, allow_blank: true`: a blank value skips the rule and a
   * value that is not blank is present, so the rule never adds a message.
   */
  function OptionalPresenceRule(isBlank: bool): (msgs: seq<string>)
    ensures msgs == []
  {
    if isBlank then [] else PresenceRule(isBlank)
  }

  /** `format: /\A[A-Z][A-Z]\z/i, allow_blank: true` on `country_code`. */
  function CountryCodeRule(loc: Location): (msgs: seq<string>)
    ensures msgs == [] || msgs == [FormatMessage]
    ensures msgs != [] <==> !Blank(loc.countryCode) && !TwoLetters(loc.countryCode.value)
  {
    if Blank(loc.countryCode) then []
    else if TwoLetters(loc.countryCode.value) then []
    else [FormatMessage]
  }

  /** `uniqueness: {scope: [:country_code, :country]}, allow_blank: true` on `city`. */
  function CityRule(loc: Location, stored: seq<Location>): (msgs: seq<string>)
    ensures msgs == [] || msgs == [TakenMessage]
    ensures msgs != [] <==> !Blank(loc.city) && Taken(loc, stored)
  {
    if Blank(loc.city) then []
    else if Taken(loc, stored) then [TakenMessage]
    else []
  }

  /** Every attribute that can carry messages. */
  const AllFields: set<Field> :=
    {IpAddress, CountryCode, Country, City, Latitude, Longitude, MysteryValue}

  /**
   * The messages the rules add under `f`, in the order the rules are
   * declared: each rule contributes only to the entry of its own attribute.
   */
  function FieldMessages(f: Field, loc: Location, stored: seq<Location>): seq<string> {
    match f
    case Latitude => LatitudeRule(loc) + OptionalPresenceRule(loc.latitude.None?)
    case Longitude => LongitudeRule(loc) + OptionalPresenceRule(loc.longitude.None?)
    case IpAddress => PresenceRule(loc.ipAddress.None?)
    case Country => PresenceRule(Blank(loc.country))
    case MysteryValue => OptionalPresenceRule(loc.mysteryValue.None?)
    case CountryCode => CountryCodeRule(loc)
    case City => CityRule(loc, stored)
  }

  /**
   * `record.valid?` against the records already stored, leaving behind
   * `record.errors.messages`: an entry for each attribute some rule added a
   * message to. The only rule on `mystery_value` is `presence` with
   * `allow_blank`, so it never has an entry.
   */
  function Errors(loc: Location, stored: seq<Location>): (e: Messages)
    ensures MysteryValue !in e
  {
    map f | f in AllFields && FieldMessages(f, loc, stored) != [] :: FieldMessages(f, loc, stored)
  }

  /**
   * Each attribute has an entry in the errors exactly when its own rule
   * fires, and the entry then holds that rule's one message; `mystery_value`
   * never has one.
   */
  lemma ErrorsByField(loc: Location, stored: seq<Location>)
    ensures var e := Errors(loc, stored);
      && (IpAddress in e <==> loc.ipAddress.None?)
      && (Country in e <==> Blank(loc.country))
      && (CountryCode in e <==> !Blank(loc.countryCode) && !TwoLetters(loc.countryCode.value))
      && (Latitude in e <==> loc.latitude.Some? && (loc.latitude.value < -90.0 || loc.latitude.value > 90.0))
      && (Longitude in e <==> loc.longitude.Some? && (loc.longitude.value < -180.0 || loc.longitude.value > 180.0))
      && (City in e <==> !Blank(loc.city) && Taken(loc, stored))
      && MysteryValue !in e
      && (forall f :: f in e ==> e[f] == [MessageFor(f)])
  {
  }

  /**
   * What a valid location is, stated attribute by attribute: an address, a
   * country that is not blank, a country code that is blank or two letters,
   * coordinates within their inclusive bounds when present, and a city that
   * is blank or not yet taken in its scope.
   */
  predicate IsValid(loc: Location, stored: seq<Location>) {
    && loc.ipAddress.Some?
    && !Blank(loc.country)
    && (Blank(loc.countryCode) || TwoLetters(loc.countryCode.value))
    && (loc.latitude.None? || -90.0 <= loc.latitude.value <= 90.0)
    && (loc.longitude.None? || -180.0 <= loc.longitude.value <= 180.0)
    && (Blank(loc.city) || !Taken(loc, stored))
  }

  /** A record has no errors exactly when it meets every rule. */
  lemma ErrorsEmptyIffValid(loc: Location, stored: seq<Location>)
    ensures Errors(loc, stored) == map[] <==> IsValid(loc, stored)
  {
    var e := Errors(loc, stored);
    ErrorsByField(loc, stored);
    if !IsValid(loc, stored) {
      if loc.ipAddress.None? { assert IpAddress in e; }
      else if Blank(loc.country) { assert Country in e; }
      else if !(Blank(loc.countryCode) || TwoLetters(loc.countryCode.value)) { assert CountryCode in e; }
      else if !(loc.latitude.None? || -90.0 <= loc.latitude.value <= 90.0) { assert Latitude in e; }
      else if !(loc.longitude.None? || -180.0 <= loc.longitude.value <= 180.0) { assert Longitude in e; }
      else { assert City in e; }
    } else {
      forall f ensures f !in e {
      }
    }
  }

  /**
   * The bounds are inclusive: the poles and the antimeridian are valid
   * coordinates, and only values beyond them are refused.
   */
  lemma CoordinateBoundsInclusive(loc: Location, stored: seq<Location>)
    ensures loc.latitude == Some(90.0) || loc.latitude == Some(-90.0) ==> Latitude !in Errors(loc, stored)
    ensures loc.longitude == Some(180.0) || loc.longitude == Some(-180.0) ==> Longitude !in Errors(loc, stored)
  {
    ErrorsByField(loc, stored);
  }

  /**
   * Changing only the latitude of a record changes only the `latitude`
   * entry of its errors: it is set when the new value is out of bounds and
   * absent otherwise, and every other attribute keeps its messages.
   */
  lemma LatitudeChangeIsLocal(loc: Location, stored: seq<Location>, v: real)
    ensures Errors(loc.(latitude := Some(v)), stored) ==
      if v < -90.0 || v > 90.0 then Errors(loc, stored)[Latitude := [LatitudeMessage]]
      else Errors(loc, stored) - {Latitude}
  {
    var moved := loc.(latitude := Some(v));
    forall f | f != Latitude
      ensures FieldMessages(f, moved, stored) == FieldMessages(f, loc, stored)
    {
      if f == City {
        assert Taken(moved, stored) <==> Taken(loc, stored) by {
          forall k | 0 <= k < |stored|
            ensures SameScope(stored[k], moved) <==> SameScope(stored[k], loc)
          {
          }
        }
      }
    }
    var before, after := Errors(loc, stored), Errors(moved, stored);
    var expected := if v < -90.0 || v > 90.0 then before[Latitude := [LatitudeMessage]]
                    else before - {Latitude};
    assert after.Keys == expected.Keys;
    forall f | f in after ensures after[f] == expected[f] {
    }
  }

  /**
   * `latitude`, `longitude`, `mystery_value` and `city` are optional: a valid
   * record with any one of them cleared is still valid.
   */
  lemma OptionalAttributesMayBeMissing(loc: Location, stored: seq<Location>)
    requires Errors(loc, stored) == map[]
    ensures Errors(loc.(latitude := None), stored) == map[]
    ensures Errors(loc.(longitude := None), stored) == map[]
    ensures Errors(loc.(mysteryValue := None), stored) == map[]
    ensures Errors(loc.(city := None), stored) == map[]
  {
    ErrorsEmptyIffValid(loc, stored);
    forall cleared | cleared in {loc.(latitude := None), loc.(longitude := None), loc.(mysteryValue := None)}
      ensures Errors(cleared, stored) == map[]
    {
      forall k | 0 <= k < |stored| ensures SameScope(stored[k], cleared) == SameScope(stored[k], loc) {
      }
      ErrorsEmptyIffValid(cleared, stored);
    }
    ErrorsEmptyIffValid(loc.(city := None), stored);
  }

  /** No two records of `locs` with a city that is not blank share its scope. */
  predicate UniqueCities(locs: seq<Location>) {
    forall j, k :: 0 <= j < k < |locs| && !Blank(locs[j].city) ==> !SameScope(locs[j], locs[k])
  }

  /** Every record of `locs` was valid against the records before it. */
  predicate InsertedValidly(locs: seq<Location>) {
    forall k :: 0 <= k < |locs| ==> Errors(locs[k], locs[..k]) == map[]
  }

  /**
   * Records inserted one by one, each validated against those already
   * stored, never share a city scope: the uniqueness rule, checked only at
   * insert time, is an invariant of the stored table.
   */
  lemma {:induction false} InsertedValidlyIsUnique(locs: seq<Location>)
    requires InsertedValidly(locs)
    ensures UniqueCities(locs)
  {
    forall j, k | 0 <= j < k < |locs| && !Blank(locs[j].city)
      ensures !SameScope(locs[j], locs[k])
    {
      ErrorsByField(locs[k], locs[..k]);
      assert locs[..k][j] == locs[j];
    }
  }
}
