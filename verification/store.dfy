/**
 * The `geolocation_locations` table as the controller uses it through
 * ActiveRecord: `Location.delete_all`, `Location.create!`, `Location.all`
 * and `Location.find`. Rows carry the primary key the table's sequence hands
 * out; the sequence is not reset by `delete_all`, so a key is never handed
 * out twice. The model keeps the rows in insertion order.
 */
module LocationStore {
  import opened Wrappers
  import opened LocationValidation

  /** A stored row: its primary key and its attributes. */
  datatype Record = Record(id: nat, location: Location)

  /**
   * What `create!` raises once the attributes are assigned:
   * `RecordInvalid` with the validation messages, or `ActiveModel::RangeError`
   * when the integer column cannot hold the mystery value.
   */
  datatype CreateError = RecordInvalid(messages: Messages) | OutOfRange(value: int)

  /**
   * `mystery_value` is a 4-byte `integer` column, which ActiveRecord
   * serialises only from -2^31 up to, but not including, 2^31.
   */
  const IntegerMin: int := -0x8000_0000
  const IntegerLimit: int := 0x8000_0000

  /** The integer column can hold the mystery value, or it is nil. */
  predicate Fits(loc: Location) {
    loc.mysteryValue.None? || IntegerMin <= loc.mysteryValue.value < IntegerLimit
  }

  /** The attributes of the rows, in order. */
  function LocationsOf(rs: seq<Record>): (locs: seq<Location>)
    ensures |locs| == |rs| && forall k :: 0 <= k < |rs| ==> locs[k] == rs[k].location
  {
    seq(|rs|, k requires 0 <= k < |rs| => rs[k].location)
  }

  /**
   * The row with primary key `id`, if the table has one: a row is found
   * exactly when one with that key is stored.
   */
  function FindIn(rs: seq<Record>, id: int): (r: Option<Record>)
    ensures r.Some? <==> exists k :: 0 <= k < |rs| && rs[k].id == id
    ensures r.Some? ==> r.value.id == id && r.value in rs
  {
    if rs == [] then None
    else if rs[0].id == id then Some(rs[0])
    else FindIn(rs[1..], id)
  }

  class Store {
    /** The rows of the table, in the order they were inserted. */
    var records: seq<Record>
    /** The next value of the primary-key sequence. */
    var nextId: nat

    /**
     * Keys are below the sequence's next value and increase along the
     * table, every mystery value fits its column, and every row passed
     * validation against the rows stored before it when it was inserted.
     */
    ghost predicate Valid()
      reads this
    {
      && (forall k :: 0 <= k < |records| ==> records[k].id < nextId && Fits(records[k].location))
      && (forall j, k :: 0 <= j < k < |records| ==> records[j].id < records[k].id)
      && InsertedValidly(LocationsOf(records))
    }

    /** The attributes of the stored rows, in order. */
    function Locations(): seq<Location>
      reads this
    {
      LocationsOf(records)
    }

    /** An empty table whose sequence starts at 1. */
    constructor ()
      ensures Valid() && records == [] && nextId == 1
    {
      records := [];
      nextId := 1;
    }

    /** `Location.delete_all`: every row goes; the sequence keeps counting. */
    method DeleteAll()
      modifies this
      ensures Valid()
      ensures records == [] && nextId == old(nextId)
    {
      records := [];
    }

    /**
     * `Location.create!(attributes)` once the attributes are assigned: the
     * record is validated against the rows now stored, and an invalid one
     * raises `RecordInvalid` with its messages. A valid one is serialised for
     * the INSERT, which raises `RangeError` when the mystery value does not
     * fit its column; otherwise it is appended under the next key. A raise
     * leaves the table as it was. No row with a blank-free city ever shares
     * its scope with another.
     */
    method Create(loc: Location) returns (r: Result<Record, CreateError>)
      requires Valid()
      modifies this
      ensures Valid() && UniqueCities(Locations())
      ensures r == if Errors(loc, old(Locations())) != map[] then Failure(RecordInvalid(Errors(loc, old(Locations()))))
                   else if !Fits(loc) then Failure(OutOfRange(loc.mysteryValue.value))
                   else Success(Record(old(nextId), loc))
      ensures r.Success? ==> records == old(records) + [r.value] && nextId == old(nextId) + 1
      ensures r.Failure? ==> records == old(records) && nextId == old(nextId)
      ensures Locations() == if r.Success? then old(Locations()) + [loc] else old(Locations())
    {
      var e := Errors(loc, Locations());
      if e != map[] {
        r := Failure(RecordInvalid(e));
      } else if !Fits(loc) {
        r := Failure(OutOfRange(loc.mysteryValue.value));
      } else {
        var before := Locations();
        r := Success(Record(nextId, loc));
        records := records + [r.value];
        nextId := nextId + 1;
        assert Locations() == before + [loc];
        assert Locations()[..|before|] == before;
        forall k | 0 <= k < |before| ensures Locations()[..k] == before[..k] {
        }
      }
      InsertedValidlyIsUnique(Locations());
    }

    /**
     * `Location.find(id)`: the one row with that key, or nil where
     * ActiveRecord raises `RecordNotFound`.
     */
    function Find(id: int): (r: Option<Record>)
      reads this
      requires Valid()
      ensures r.Some? <==> exists k :: 0 <= k < |records| && records[k].id == id
      ensures r.Some? ==> forall k :: 0 <= k < |records| && records[k].id == id ==> records[k] == r.value
    {
      FindIn(records, id)
    }
  }
}
