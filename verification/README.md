# Geolocation engine: validation, bulk import and configuration

A Dafny model of the core of the `geolocation` Rails engine:

- the validation rules of a `Geolocation::Location` record: the two coordinate validators and the `validates` declarations for presence, two-letter country code and city uniqueness within `(country_code, country)`;
- `LocationsController#import_data`, which does the following in order:
  - empties the `geolocation_locations` table;
  - walks the data rows of a CSV file, creating one record per row;
  - counts the rows that fail validation;
  - records for each failed row its line, its values joined with `,` and the validation messages;
  - answers with `total`, `ok`, `nok` and `errors`;
- the two reads `index` and `show`;
- `Geolocation.configure` and `Geolocation::Configuration`.

Modules:

- `Wrappers`: `Option` and `Result`.
- `Strings`: Ruby's `blank?` on a nullable string, and `Array#join` with the place of every part in the joined text.
- `LocationValidation`: the rules as functions of a candidate record and the records already stored.
  - `Errors` builds `errors.messages`.
  - The lemmas state, field by field, when each rule fires and that a record is valid exactly when no rule fires.
- `LocationExamples`: the records of test/models/geolocation/location_test.rb, checked against the validation rules.
- `AttributeAssignment`: what `Location.create!(hash)` does before validating.
  - Each pair of the row's hash is assigned in turn.
  - The column's cast from text is applied.
  - It stops at the first header that names no attribute.
- `LocationStore`: the table as a `Store` class with its rows and its primary-key sequence, and the methods `DeleteAll`, `Create` and `Find`. `Create` validates, then refuses a mystery value the 4-byte `integer` column (db/migrate/20170415092520_create_geolocation_locations.rb:10) cannot hold.
- `Selection`: the positions among the first `n` where something happened, and what happened there, in order.
- `LocationsController`:
  - `ImportRows` is the loop written as a fold over the rows.
  - `ImportData` runs the loop as a method against a `Store`. It is proved to return `ImportOutcome` and to leave the table holding `ImportedLocations`.
  - The lemmas state what the report and the table then hold.
- `GeolocationConfig`:
  - the `Configuration` class and its defaults;
  - the `Geolocation` module object whose `Configure` creates the configuration lazily and runs a block of writer calls on it;
  - lemmas about what a block leaves.

Points where the code does something other than its messages or its tests suggest; the model follows the code:

- The coordinate bounds are inclusive. The messages "must lie between -90 and +90" and "must lie between -180 and +180" read as strict bounds, but `latitude < -90 || latitude > 90` (app/models/geolocation/location.rb:4, and :12 for the longitude) accepts ±90 and ±180 (`LocationValidation.CoordinateBoundsInclusive`).
- test/integration/geolocation/configuration_test.rb:9-13 expects `file_name`, `upload_dir`, `allow_blank`, `delete_all` and `max_lines`, which lib/geolocation/engine.rb:29-38 does not define. The model has the attributes the code defines: `enabled`, `uploads_dir` and `data_dump_csv`.
- `import_data` always deletes first, reads a fixed path and reads every row. An unreadable file therefore ends the action with the table already empty.
- `mystery_value` is a 4-byte `integer` column. A record that passes validation but whose mystery value lies outside -2^31 to 2^31 - 1 makes the INSERT raise `ActiveModel::RangeError`. The loop rescues only `RecordInvalid`, so the action ends on that row with the earlier rows stored (`LocationsController.RaisedOnLastLine`). The sample record of test/models/geolocation/location_test.rb:22 has the mystery value 2559997162, which is beyond that range.

## Model

| member | source | states |
|---|---|---|
| LocationValidation.LatitudeRule | app/models/geolocation/location.rb:2-8 | a latitude gets "must lie between -90 and +90" exactly when it is present and outside -90 to 90; a nil or in-range latitude gets nothing |
| LocationValidation.LongitudeRule | app/models/geolocation/location.rb:10-16 | a longitude gets "must lie between -180 and +180" exactly when it is present and outside -180 to 180; a nil or in-range longitude gets nothing |
| LocationValidation.PresenceRule | app/models/geolocation/location.rb:23 | `presence` adds "can't be blank" exactly when the value is blank, and nothing otherwise |
| LocationValidation.OptionalPresenceRule | app/models/geolocation/location.rb:24 | `presence` with `allow_blank` never adds a message, whether the value is blank or not |
| LocationValidation.CountryCodeRule | app/models/geolocation/location.rb:25 | a country code is refused, with "only allows two letters", exactly when it is not blank and not two characters that `[A-Z]` matches under `i` (an ASCII letter in either case, U+212A or U+017F) |
| LocationValidation.CityRule | app/models/geolocation/location.rb:26 | a city is refused, with "has already been taken", exactly when it is not blank and a stored record has the same city, country code and country |
| LocationValidation.Errors | app/models/geolocation/location.rb:18-26 | `valid?` never leaves an entry under `mystery_value`, whose only rule is `presence` with `allow_blank` |
| LocationValidation.ErrorsByField | app/models/geolocation/location.rb:2-26 | each attribute has an entry in the errors exactly when its own rule fires; the entry then holds that rule's one message; `mystery_value` never has an entry |
| LocationValidation.ErrorsEmptyIffValid | app/models/geolocation/location.rb:2-26 | the errors are empty exactly when the record meets every rule, stated attribute by attribute (`IsValid`) |
| LocationValidation.CoordinateBoundsInclusive | app/models/geolocation/location.rb:2-16 | a latitude of ±90 never produces a `latitude` entry, and a longitude of ±180 never a `longitude` entry, whatever the other attributes |
| LocationValidation.LatitudeChangeIsLocal | app/models/geolocation/location.rb:2-8 | changing only the latitude sets or clears only the `latitude` entry; every other attribute keeps its messages |
| LocationValidation.OptionalAttributesMayBeMissing | app/models/geolocation/location.rb:24-26 | a valid record stays valid with its latitude, longitude, mystery value or city cleared |
| LocationValidation.InsertedValidlyIsUnique | app/models/geolocation/location.rb:26 | records inserted one by one, each valid against those before it, never share a city scope when the city is not blank |
| LocationExamples.SampleIsValid | test/models/geolocation/location_test.rb:11-29 | the test's sample record is valid against the two fixtures |
| LocationExamples.SampleWithoutCountryCodeIsValid | test/models/geolocation/location_test.rb:57-61 | the sample without a country code is valid |
| LocationExamples.MissingAddressRefused | test/models/geolocation/location_test.rb:32-42 | without an address (nil, or text the `inet` column cannot parse) the sample is refused under `ip_address` only |
| LocationExamples.IllegalCountryCodeRefused | test/models/geolocation/location_test.rb:51-55 | `'#$@!'` as country code is refused under `country_code` only |
| LocationExamples.LatitudeBeyondPoleRefused | test/models/geolocation/location_test.rb:102-106 | latitude 90.12345 is refused under `latitude` only |
| LocationExamples.DuplicateCityRefused | test/models/geolocation/location_test.rb:153-159 | the city, country code and country of fixture `one` are refused under `city` only |
| AttributeAssignment.AssignAttribute | app/controllers/geolocation/locations_controller.rb:37 | writing one pair raises exactly when its key names no attribute, and then reports that key |
| AttributeAssignment.AssignAttributeOverlays | app/controllers/geolocation/locations_controller.rb:37 | writing a known key sets its column to the cell cast to the column's type and leaves the other columns alone |
| AttributeAssignment.AssignAllFails | app/controllers/geolocation/locations_controller.rb:35-37 | assigning a row's hash fails exactly when some header names no attribute, and reports the first such header |
| AttributeAssignment.AssignAllOverlays | app/controllers/geolocation/locations_controller.rb:35-37 | a successful assignment sets every column the row names to its cast cell and leaves the others alone, in any order of the pairs |
| AttributeAssignment.NewAssignsCells | app/controllers/geolocation/locations_controller.rb:35-37 | `Location.new(hash)` fails exactly on an unknown header; otherwise each column holds its cast cell, nil for a missing column |
| AttributeAssignment.JoinedValues | app/controllers/geolocation/locations_controller.rb:42 | the joined values of a row are empty when the row has no cells; otherwise every cell's text (nil as empty text) stands at its place in column order, each but the last followed by ',', and the text ends with the last cell |
| Strings.Join | app/controllers/geolocation/locations_controller.rb:42 | the joined text is empty for no parts, and otherwise ends where the last part ends |
| Strings.JoinPlacesPart | app/controllers/geolocation/locations_controller.rb:42 | every part appears in the joined text at its place |
| Strings.JoinSeparatesParts | app/controllers/geolocation/locations_controller.rb:42 | the separator stands between each part and the next, and the next part begins right after it |
| LocationStore.FindIn | app/controllers/geolocation/locations_controller.rb:72-74 | a row is found exactly when one with that key is stored, and the row found has that key |
| LocationStore.Store.DeleteAll | app/controllers/geolocation/locations_controller.rb:28 | every row goes and the key sequence is not reset |
| LocationStore.Store.Create | app/controllers/geolocation/locations_controller.rb:37 | the record is validated against the rows now stored; an invalid one raises `RecordInvalid` with its messages; a valid one whose mystery value does not fit the 4-byte integer column raises `RangeError`; otherwise it is appended under the next key; a raise leaves the table unchanged; every stored mystery value fits, and no two stored rows ever share a city scope |
| LocationStore.Store.Find | app/controllers/geolocation/locations_controller.rb:72-74 | the row with that key, found exactly when one is stored, and unique |
| LocationsController.ImportRows | app/controllers/geolocation/locations_controller.rb:30-46 | after the rows, `nok` is the number of error entries and every line is stored, refused or the one that raised; without a raise every row was read |
| LocationsController.StepEndsRowOneWay | app/controllers/geolocation/locations_controller.rb:33-45 | after a raise a turn changes nothing; otherwise the line counter moves on by one and the row is exactly one of stored, reported with an entry for its line, or raised; rows and entries are only ever appended |
| LocationsController.ImportOutcome | app/controllers/geolocation/locations_controller.rb:52-60 | no report for an unreadable file; a report has `total` equal to the number of rows, `nok` entries in `errors`, `0 <= nok <= total`, and `ok = total - nok` equal to the number of stored rows |
| LocationsController.ImportedLocations | app/controllers/geolocation/locations_controller.rb:28-33 | an unreadable file leaves the table empty, because the table is emptied first |
| LocationsController.ImportData | app/controllers/geolocation/locations_controller.rb:21-46 | whatever the table held, the action's loop returns `ImportOutcome` and leaves the table holding `ImportedLocations`, with no two rows sharing a city scope |
| LocationsController.ImportRow | app/controllers/geolocation/locations_controller.rb:34-45 | one turn of the loop on the store does what one `Step` of the fold does: `RecordInvalid` becomes an error entry, an unknown header or a range error is handed back as raised |
| LocationsController.RaisedEndsTheRun | app/controllers/geolocation/locations_controller.rb:33-38 | once `create!` raises something other than `RecordInvalid`, later rows change nothing |
| LocationsController.RaisedOnLastLine | app/controllers/geolocation/locations_controller.rb:33-38 | a run that raised did so on the row of its last line, with nothing raised before it; that row either names an unknown header or passed validation with a mystery value the integer column cannot hold |
| LocationsController.AssignedBeforeRaise | app/controllers/geolocation/locations_controller.rb:33-46 | every row before the one that raised was assigned, and a run without a raise assigned every row |
| LocationsController.RunExtends | app/controllers/geolocation/locations_controller.rb:32-44 | stored rows and error entries are never taken back: a shorter run's lists are prefixes of a longer run's |
| LocationsController.RowEntry | app/controllers/geolocation/locations_controller.rb:38-44 | row `i` adds its entry to the errors exactly when it is rejected |
| LocationsController.RowStored | app/controllers/geolocation/locations_controller.rb:37 | row `i` adds its location to the table exactly when it is accepted: valid, with a mystery value that fits its column |
| LocationsController.ErrorsAreRejectedEntries | app/controllers/geolocation/locations_controller.rb:38-44 | after `n` rows the errors are exactly the entries of the rejected rows among them, in file order |
| LocationsController.StoredAreAcceptedLocations | app/controllers/geolocation/locations_controller.rb:37 | after `n` rows the table holds exactly the accepted rows among them, in file order |
| LocationsController.ImportPartitionsRows | app/controllers/geolocation/locations_controller.rb:28-46 | the errors are the rejected rows' entries and the table is the accepted rows, both in file order |
| LocationsController.RejectedEntryIsOfItsLine | app/controllers/geolocation/locations_controller.rb:40-44 | each entry carries the 1-based line of a rejected row, that row's values joined with ',' and the messages it was refused with |
| LocationsController.RejectedEntriesInOrder | app/controllers/geolocation/locations_controller.rb:34-44 | entry lines strictly increase |
| LocationsController.ReportListsRejectedRows | app/controllers/geolocation/locations_controller.rb:40-60 | a report's errors are the rejected rows' entries, with strictly increasing lines within `1..total` |
| LocationsController.RejectedRowIsReported | app/controllers/geolocation/locations_controller.rb:38-44 | every rejected row has its entry among the errors |
| LocationsController.AcceptedRowIsStored | app/controllers/geolocation/locations_controller.rb:37 | every accepted row ends up in the table |
| LocationsController.StoredInsertedValidly | app/controllers/geolocation/locations_controller.rb:37 | every stored row passed validation against the rows stored before it |
| LocationsController.UniqueAfterImport | app/controllers/geolocation/locations_controller.rb:37 | after a run no two stored rows with a city that is not blank share its scope |
| LocationsController.Index | app/controllers/geolocation/locations_controller.rb:12-14 | `index` answers every stored row, in the insertion order the model keeps |
| LocationsController.Show | app/controllers/geolocation/locations_controller.rb:16-18 | `show` answers the row with that key exactly when one is stored, and `RecordNotFound` otherwise |
| GeolocationConfig.Configuration.constructor | lib/geolocation/engine.rb:34-38 | a new configuration has `enabled = true`, `uploads_dir = 'uploads'` and `data_dump_csv = 'data_dump.csv'` |
| GeolocationConfig.Configuration.Assign | lib/geolocation/engine.rb:30-32 | a writer call sets its attribute and leaves the others unchanged |
| GeolocationConfig.Geolocation.Configure | lib/geolocation/engine.rb:24-27 | the configuration is created with the defaults only when none exists; otherwise the existing one is reused; the block's writer calls are applied to it and it is kept for the next call |
| GeolocationConfig.UnassignedKept | lib/geolocation/engine.rb:29-32 | an attribute a block does not assign keeps its value |
| GeolocationConfig.LastAssignmentWins | lib/geolocation/engine.rb:29-32 | an attribute a block assigns ends with the value of its last assignment |
| GeolocationConfig.BlocksCompose | lib/geolocation/engine.rb:20-27 | two blocks in turn leave what one block with both sets of calls leaves, so values set in one block are seen by the next |

## Left out

- CSV tokenising by `CSV.foreach(..., headers: true)` is not modelled. The file arrives as its data rows, each already a header-to-cell list, or as nil when it cannot be opened.
- A malformed line makes `CSV.foreach` raise `CSV::MalformedCSVError` partway through the file. The loop does not rescue it, so the action ends there with the rows before it stored. The model's file is all its rows or nil, so this exit is not modelled.
- A CSV row whose header occurs twice is not modelled: rows are assumed to have distinct headers.
- The file path is fixed and not modelled.
- Clock reads and the `stopwatch` and `dumpfile` fields of the answer are left out.
- JSON rendering is left out.
- The forgery-protection filters and `ApplicationController` are left out.
- The database's casts are a parameter (`Typecast`), because text-to-`inet`, text-to-float and text-to-integer parsing belong to PostgreSQL and Ruby. In particular there is no IP address parser: an address the column cannot parse is whatever the parameter maps to nil.
- Latitudes and longitudes are `real`, so floating-point rounding, NaN and infinities are not modelled.
- AttributeAssignment.AssignAttribute: in the source a row with an `id`, `created_at` or `updated_at` header sets that attribute through its public writer. The model has no such attributes and treats such a header as unknown, so it ends the import on that row where the source goes on.
- Validation errors are a map from attribute to messages. The insertion order of the keys of `errors.messages` is not modelled.
- The country-code pattern's `i` flag is modelled by its effect on `[A-Z]`: the ASCII letters in either case, KELVIN SIGN (U+212A) and LATIN SMALL LETTER LONG S (U+017F). Strings in encodings other than UTF-8 are not modelled.
- The uniqueness check runs against the records stored before. The exclusion of the record itself when it is already persisted is not modelled, because the import only creates new records.
- LocationsController.Index: `Location.all` is a query without `ORDER BY`, and PostgreSQL leaves the order of its rows open. The model answers the rows in insertion order, one of the orders the source allows.
- Concurrent imports and the race between the uniqueness check and the insert are left out.
- The `Engine` initializer, which mounts the routes and adds the migration path, is left out.
- A `configure` block is modelled as its sequence of writer calls. Reads inside the block are the attribute values of the configuration returned.
- The `ip_address` lookup is left out: it is routed, but the controller defines no such action.
- The file name, upload directory, `allow_blank`, `delete_all` and `max_lines` import settings are left out, because the code has none of them.
