/**
 * What `Location.create!(location_hash)` does before it validates: build a
 * new record and assign each pair of the row's hash to the attribute of
 * that name, casting the text to the column's type. A key that names no
 * attribute raises `ActiveModel::UnknownAttributeError`, which is not an
 * `ActiveRecord::RecordInvalid` and so is not rescued by the import loop.
 */
module AttributeAssignment {
  import opened Wrappers
  import opened Strings
  import opened LocationValidation

  /** No header occurs twice. */
  predicate DistinctKeys(h: seq<(string, Option<string>)>) {
    forall j, k :: 0 <= j < k < |h| ==> h[j].0 != h[k].0
  }

  /**
   * One CSV data row as `row.to_hash` gives it: header to cell, in column
   * order, each header once. An empty unquoted cell is nil.
   */
  type RowHash = h: seq<(string, Option<string>)> | DistinctKeys(h) witness []

  /**
   * The column types' casts from text, which belong to the database adapter:
   * `inet` yields nil for text that is not an address, `float` and `integer`
   * always yield a number (`to_f`, `to_i`).
   */
  datatype Typecast = Typecast(inet: string -> Option<string>, float: string -> real, integer: string -> int)

  /** The attribute names of a location that a row may assign. */
  const Columns: set<string> :=
    {"ip_address", "country_code", "country", "city", "latitude", "longitude", "mystery_value"}

  /** `Location.new`: every column is nil. */
  const NewLocation := Location(None, None, None, None, None, None, None)

  /** An `inet` column: nil stays nil, text is parsed as an address. */
  function CastInet(value: Option<string>, inet: string -> Option<string>): Option<string> {
    if value.None? then None else inet(value.value)
  }

  /** A numeric column: blank text becomes nil, other text is converted. */
  function CastNumber<T>(value: Option<string>, convert: string -> T): Option<T> {
    if Blank(value) then None else Some(convert(value.value))
  }

  /**
   * `record.public_send("#{key}=", value)`: a key that names no attribute
   * raises with that key, any other is assigned.
   */
  function AssignAttribute(loc: Location, key: string, value: Option<string>, cast: Typecast): (r: Result<Location, string>)
    ensures r.Failure? <==> key !in Columns
    ensures r.Failure? ==> r.error == key
  {
    if key == "ip_address" then Success(loc.(ipAddress := CastInet(value, cast.inet)))
    else if key == "country_code" then Success(loc.(countryCode := value))
    else if key == "country" then Success(loc.(country := value))
    else if key == "city" then Success(loc.(city := value))
    else if key == "latitude" then Success(loc.(latitude := CastNumber(value, cast.float)))
    else if key == "longitude" then Success(loc.(longitude := CastNumber(value, cast.float)))
    else if key == "mystery_value" then Success(loc.(mysteryValue := CastNumber(value, cast.integer)))
    else Failure(key)
  }

  /** `assign_attributes`: the pairs in order, stopping at the first unknown key. */
  function AssignAll(loc: Location, h: seq<(string, Option<string>)>, cast: Typecast): Result<Location, string>
    decreases |h|
  {
    if h == [] then Success(loc)
    else match AssignAttribute(loc, h[0].0, h[0].1, cast)
      case Failure(key) => Failure(key)
      case Success(next) => AssignAll(next, h[1..], cast)
  }

  /** The cell under `key`, or nil when the row has no such column. */
  function Cell(h: seq<(string, Option<string>)>, key: string): Option<string> {
    if h == [] then None
    else if h[0].0 == key then h[0].1
    else Cell(h[1..], key)
  }

  /** `h.key?(key)`. */
  predicate HasKey(h: seq<(string, Option<string>)>, key: string) {
    exists k :: 0 <= k < |h| && h[k].0 == key
  }

  /**
   * `loc` with every column that `h` names set to its cell, cast to the
   * column's type; the columns `h` does not name keep their values.
   */
  function Overlay(loc: Location, h: seq<(string, Option<string>)>, cast: Typecast): Location {
    Location(
      if HasKey(h, "ip_address") then CastInet(Cell(h, "ip_address"), cast.inet) else loc.ipAddress,
      if HasKey(h, "country_code") then Cell(h, "country_code") else loc.countryCode,
      if HasKey(h, "country") then Cell(h, "country") else loc.country,
      if HasKey(h, "city") then Cell(h, "city") else loc.city,
      if HasKey(h, "latitude") then CastNumber(Cell(h, "latitude"), cast.float) else loc.latitude,
      if HasKey(h, "longitude") then CastNumber(Cell(h, "longitude"), cast.float) else loc.longitude,
      if HasKey(h, "mystery_value") then CastNumber(Cell(h, "mystery_value"), cast.integer) else loc.mysteryValue)
  }

  /** A row of one pair names just that pair's key, with its cell. */
  lemma OnePair(key: string, value: Option<string>)
    ensures forall c :: HasKey([(key, value)], c) <==> c == key
    ensures Cell([(key, value)], key) == value
  {
    assert [(key, value)][0].0 == key;
  }

  /**
   * Assigning a known attribute sets its column to the value cast to the
   * column's type and leaves the other columns alone: it overlays the one
   * pair.
   */
  lemma AssignAttributeOverlays(loc: Location, key: string, value: Option<string>, cast: Typecast)
    ensures AssignAttribute(loc, key, value, cast).Success? ==>
      AssignAttribute(loc, key, value, cast).value == Overlay(loc, [(key, value)], cast)
  {
    OnePair(key, value);
  }

  /**
   * Assignment fails exactly when some key names no attribute, and then
   * reports the first such key.
   */
  lemma {:induction false} AssignAllFails(loc: Location, h: seq<(string, Option<string>)>, cast: Typecast)
    ensures AssignAll(loc, h, cast).Failure? <==> exists k :: 0 <= k < |h| && h[k].0 !in Columns
    ensures AssignAll(loc, h, cast).Failure? ==>
      exists k :: 0 <= k < |h| && h[k].0 == AssignAll(loc, h, cast).error && h[k].0 !in Columns
        && forall j :: 0 <= j < k ==> h[j].0 in Columns
    decreases |h|
  {
    if h != [] {
      var key, tail := h[0].0, h[1..];
      if key in Columns {
        var next := AssignAttribute(loc, key, h[0].1, cast).value;
        AssignAllFails(next, tail, cast);
        assert AssignAll(loc, h, cast) == AssignAll(next, tail, cast);
        if exists k :: 0 <= k < |h| && h[k].0 !in Columns {
          var k :| 0 <= k < |h| && h[k].0 !in Columns;
          assert tail[k - 1] == h[k];
        }
        if AssignAll(loc, h, cast).Failure? {
          var k :| 0 <= k < |tail| && tail[k].0 == AssignAll(loc, h, cast).error && tail[k].0 !in Columns
                   && forall j :: 0 <= j < k ==> tail[j].0 in Columns;
          assert h[k + 1] == tail[k];
          assert forall j :: 1 <= j < k + 1 ==> h[j] == tail[j - 1];
        }
      } else {
        assert AssignAll(loc, h, cast) == Failure(key);
      }
    }
  }

  /** Without its first pair, a row names the same columns with the same cells, except the first. */
  lemma TailCells(h: seq<(string, Option<string>)>)
    requires DistinctKeys(h) && h != []
    ensures HasKey(h, h[0].0) && Cell(h, h[0].0) == h[0].1 && !HasKey(h[1..], h[0].0)
    ensures forall c :: c != h[0].0 ==> HasKey(h, c) == HasKey(h[1..], c) && Cell(h, c) == Cell(h[1..], c)
  {
    var tail := h[1..];
    forall c | c != h[0].0 ensures HasKey(h, c) == HasKey(tail, c) {
      if HasKey(h, c) {
        var k :| 0 <= k < |h| && h[k].0 == c;
        assert tail[k - 1].0 == c;
      }
      if HasKey(tail, c) {
        var k :| 0 <= k < |tail| && tail[k].0 == c;
        assert h[k + 1].0 == c;
      }
    }
  }

  /**
   * A successful assignment sets every column the row names to its cell,
   * cast to the column's type, and leaves the others alone, whatever the
   * order of the pairs.
   */
  lemma {:induction false} AssignAllOverlays(loc: Location, h: seq<(string, Option<string>)>, cast: Typecast)
    requires DistinctKeys(h)
    ensures AssignAll(loc, h, cast).Success? ==> AssignAll(loc, h, cast).value == Overlay(loc, h, cast)
    decreases |h|
  {
    if h != [] && h[0].0 in Columns {
      var tail := h[1..];
      assert DistinctKeys(tail) by {
        forall j, k | 0 <= j < k < |tail| ensures tail[j].0 != tail[k].0 {
          assert tail[j] == h[j + 1] && tail[k] == h[k + 1];
        }
      }
      var next := AssignAttribute(loc, h[0].0, h[0].1, cast).value;
      AssignAllOverlays(next, tail, cast);
      AssignAttributeOverlays(loc, h[0].0, h[0].1, cast);
      OverlayFirstPair(loc, h, cast);
    }
  }

  /** Overlaying a row is overlaying its first pair, then the rest. */
  lemma OverlayFirstPair(loc: Location, h: seq<(string, Option<string>)>, cast: Typecast)
    requires DistinctKeys(h) && h != []
    ensures Overlay(Overlay(loc, [h[0]], cast), h[1..], cast) == Overlay(loc, h, cast)
  {
    TailCells(h);
    OnePair(h[0].0, h[0].1);
  }

  /**
   * `Location.new(location_hash)`: a new record with the row's pairs
   * assigned, or the header that raised.
   */
  function New(h: RowHash, cast: Typecast): Result<Location, string> {
    AssignAll(NewLocation, h, cast)
  }

  /**
   * `Location.new` fails exactly when some header names no attribute, and
   * then names such a header; otherwise every column of the location holds
   * its cell of the row cast to the column's type, nil when the row has no
   * such column.
   */
  lemma NewAssignsCells(h: RowHash, cast: Typecast)
    ensures New(h, cast).Failure? <==> exists k :: 0 <= k < |h| && h[k].0 !in Columns
    ensures New(h, cast).Failure? ==> HasKey(h, New(h, cast).error) && New(h, cast).error !in Columns
    ensures New(h, cast).Success? ==> New(h, cast).value == Location(
      CastInet(Cell(h, "ip_address"), cast.inet),
      Cell(h, "country_code"),
      Cell(h, "country"),
      Cell(h, "city"),
      CastNumber(Cell(h, "latitude"), cast.float),
      CastNumber(Cell(h, "longitude"), cast.float),
      CastNumber(Cell(h, "mystery_value"), cast.integer))
  {
    AssignAllFails(NewLocation, h, cast);
    AssignAllOverlays(NewLocation, h, cast);
    CellOfMissingKey(h);
  }

  /** A row without a column has no cell for it. */
  lemma {:induction false} CellOfMissingKey(h: seq<(string, Option<string>)>)
    ensures forall key :: !HasKey(h, key) ==> Cell(h, key) == None
  {
    if h != [] {
      CellOfMissingKey(h[1..]);
    }
  }

  /** The text of a cell in `values.join(',')`: nil joins as the empty string. */
  function CellText(value: Option<string>): string {
    if value.None? then "" else value.value
  }

  /** The texts of the row's cells, in column order. */
  function Cells(h: RowHash): (parts: seq<string>)
    ensures |parts| == |h| && forall k :: 0 <= k < |h| ==> parts[k] == CellText(h[k].1)
  {
    seq(|h|, k requires 0 <= k < |h| => CellText(h[k].1))
  }

  /**
   * The text of cell `k` stands in `v` at its place among the cells, and a
   * ',' follows it unless it is the last cell.
   */
  predicate HoldsCell(v: string, h: RowHash, k: nat)
    requires k < |h|
  {
    var i, c := Start(Cells(h), ",", k), CellText(h[k].1);
    i + |c| <= |v| && v[i..i + |c|] == c && (k + 1 < |h| ==> i + |c| < |v| && v[i + |c|] == ',')
  }

  /**
   * `location_hash.values.join(',')`: empty for a row without cells;
   * otherwise every cell's text in column order, each but the last followed
   * by ','.
   */
  function JoinedValues(h: RowHash): (v: string)
    ensures h == [] ==> v == ""
    ensures h != [] ==> |v| == Start(Cells(h), ",", |h| - 1) + |CellText(h[|h| - 1].1)|
    ensures forall k :: 0 <= k < |h| ==> HoldsCell(v, h, k)
  {
    var parts := Cells(h);
    assert forall k :: 0 <= k < |h| ==> HoldsCell(Join(parts, ","), h, k) by {
      forall k | 0 <= k < |h| ensures HoldsCell(Join(parts, ","), h, k) {
        JoinPlacesPart(parts, ",", k);
        if k + 1 < |h| {
          JoinSeparatesParts(parts, ",", k);
        }
      }
    }
    Join(parts, ",")
  }
}
