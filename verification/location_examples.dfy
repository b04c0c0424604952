/**
 * The records of test/models/geolocation/location_test.rb, checked against
 * the validation rules: the two stored fixtures, a sample record that is
 * valid against them, and the sample with one attribute changed at a time.
 */
module LocationExamples {
  import opened Wrappers
  import opened LocationValidation

  /** The stored fixture `one`. */
  const One := Location(Some("200.106.141.15"), Some("SI"), Some("Nepal"), Some("DuBuquemouth"),
                        Some(-84.87503094689836), Some(7.206435933364332), Some(7823011346))

  /** The stored fixture `two`. */
  const Two := Location(Some("160.103.7.140"), Some("CZ"), Some("Nicaragua"), Some("New Neva"),
                        Some(-68.31023296602508), Some(-37.62435199624531), Some(7301823115))

  const Fixtures := [One, Two]

  /** The record the tests start from. */
  const Sample := Location(Some("200.106.141.15"), Some("TL"), Some("Saudi Arabia"), Some("Gradymouth"),
                           Some(-49.16675918861615), Some(-86.05920084416894), Some(2559997162))

  /** The sample is valid against the fixtures. */
  lemma SampleIsValid()
    ensures Errors(Sample, Fixtures) == map[]
  {
    assert !SameScope(Fixtures[0], Sample) && !SameScope(Fixtures[1], Sample);
    assert Sample.country.value[0] == 'S' && Sample.countryCode.value[0] == 'T';
    ErrorsEmptyIffValid(Sample, Fixtures);
  }

  /** Without its country code the sample stays valid: no fixture has a nil country code. */
  lemma SampleWithoutCountryCodeIsValid()
    ensures Errors(Sample.(countryCode := None), Fixtures) == map[]
  {
    var loc := Sample.(countryCode := None);
    assert loc.country.value[0] == 'S';
    assert !SameScope(Fixtures[0], loc) && !SameScope(Fixtures[1], loc);
    ErrorsEmptyIffValid(loc, Fixtures);
  }

  /** An address the `inet` column could not parse, or none, is refused under `ip_address` only. */
  lemma MissingAddressRefused()
    ensures Errors(Sample.(ipAddress := None), Fixtures) == map[IpAddress := [BlankMessage]]
  {
    SampleIsValid();
    var loc := Sample.(ipAddress := None);
    ErrorsByField(loc, Fixtures);
    ErrorsByField(Sample, Fixtures);
    assert Taken(loc, Fixtures) == Taken(Sample, Fixtures);
  }

  /** `'#$@!'` is refused as a country code, under `country_code` only. */
  lemma IllegalCountryCodeRefused()
    ensures Errors(Sample.(countryCode := Some("#$@!")), Fixtures) == map[CountryCode := [FormatMessage]]
  {
    var loc := Sample.(countryCode := Some("#$@!"));
    assert loc.country.value[0] == 'S' && loc.countryCode.value[0] == '#';
    assert !SameScope(Fixtures[0], loc) && !SameScope(Fixtures[1], loc);
    ErrorsByField(loc, Fixtures);
    var e := Errors(loc, Fixtures);
    assert e.Keys == {CountryCode};
  }

  /** A latitude beyond +90 is refused under `latitude` only. */
  lemma LatitudeBeyondPoleRefused()
    ensures Errors(Sample.(latitude := Some(90.12345)), Fixtures) == map[Latitude := [LatitudeMessage]]
  {
    SampleIsValid();
    LatitudeChangeIsLocal(Sample, Fixtures, 90.12345);
  }

  /** A record with the city, country code and country of fixture `one` is refused under `city` only. */
  lemma DuplicateCityRefused()
    ensures Errors(Sample.(countryCode := Some("SI"), country := Some("Nepal"), city := Some("DuBuquemouth")), Fixtures)
            == map[City := [TakenMessage]]
  {
    var loc := Sample.(countryCode := Some("SI"), country := Some("Nepal"), city := Some("DuBuquemouth"));
    assert SameScope(Fixtures[0], loc);
    assert loc.city.value[0] == 'D' && loc.country.value[0] == 'N';
    ErrorsByField(loc, Fixtures);
    var e := Errors(loc, Fixtures);
    assert e.Keys == {City};
  }
}
