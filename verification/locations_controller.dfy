/**
 * `Geolocation::LocationsController`: the bulk import `import_data` and the
 * two reads `index` and `show`. The CSV file arrives as its data rows, each
 * already turned into its header-keyed hash (nil when the file cannot be
 * opened); the clock and the rendering of the JSON answer are left out.
 *
 * `ImportRows` is the import loop written as a function of the rows, one
 * row at a time; `ImportData` runs the loop against a `Store` and is proved
 * to leave exactly the state and the report that `ImportRows` describes.
 * The lemmas after it state what the report and the table then hold.
 */
module LocationsController {
  import opened Wrappers
  import opened Strings
  import opened LocationValidation
  import opened AttributeAssignment
  import opened LocationStore
  import opened Selection

  /** One entry of `errors`: the row's line, its values joined with ',' and its messages. */
  datatype RowError = RowError(line: nat, values: string, messages: Messages)

  /** The `records` block of the answer. */
  datatype Report = Report(total: nat, ok: int, nok: nat, errors: seq<RowError>)

  /**
   * What ends an import without a report: the file, or an exception that is
   * not rescued, which is an unknown header (`UnknownAttributeError`) or a
   * mystery value the integer column cannot hold (`ActiveModel::RangeError`).
   */
  datatype ImportError = FileNotReadable | UnknownAttribute(name: string) | RangeError(value: int)

  /** `Location.find` found nothing: ActiveRecord's `RecordNotFound`. */
  datatype LookupError = RecordNotFound(id: int)

  /**
   * The loop's variables after some rows: the counters `line` and `nok`,
   * the `errors` array, the rows stored since the table was cleared, and
   * what `create!` raised, once it has raised something it does not rescue.
   */
  datatype Progress = Progress(line: nat, nok: nat, errors: seq<RowError>, stored: seq<Location>, raised: Option<ImportError>)

  /**
   * The import loop over `rows`, started on an empty table. Each row counts
   * one line; a row that assigns an unknown attribute raises and ends the
   * loop; otherwise the record is validated against the rows stored so far
   * and is either counted in `nok` with an error entry, or raises and ends
   * the loop when its mystery value does not fit its column, or is stored.
   * Every row is thus stored, reported or the one that raised, and when
   * nothing raised every row was attempted.
   */
  function ImportRows(rows: seq<RowHash>, cast: Typecast): (p: Progress)
    ensures p.nok == |p.errors|
    ensures p.line <= |rows|
    ensures |p.stored| + p.nok + (if p.raised.Some? then 1 else 0) == p.line
    ensures p.raised.None? ==> p.line == |rows|
    decreases |rows|
  {
    if rows == [] then Progress(0, 0, [], [], None)
    else Step(ImportRows(rows[..|rows| - 1], cast), rows[|rows| - 1], cast)
  }

  /** One turn of the loop: the row `h` read after the loop reached `p`. */
  function Step(p: Progress, h: RowHash, cast: Typecast): Progress {
    if p.raised.Some? then p
    else
      var line := p.line + 1;
      match New(h, cast)
      case Failure(name) => p.(line := line, raised := Some(UnknownAttribute(name)))
      case Success(loc) =>
        var e := Errors(loc, p.stored);
        if e != map[] then p.(line := line, nok := p.nok + 1, errors := p.errors + [RowError(line, JoinedValues(h), e)])
        else if !Fits(loc) then p.(line := line, raised := Some(RangeError(loc.mysteryValue.value)))
        else p.(line := line, stored := p.stored + [loc])
  }

  /**
   * Once something has raised, a turn changes nothing. Otherwise the line
   * counter moves on by one and the row ends exactly one way: stored,
   * reported with an entry for its line, or raised. Stored rows and entries
   * are only ever added at the end.
   */
  lemma StepEndsRowOneWay(p: Progress, h: RowHash, cast: Typecast)
    ensures var q := Step(p, h, cast);
      && (p.raised.Some? ==> q == p)
      && (p.raised.None? ==> q.line == p.line + 1)
      && p.stored <= q.stored && p.errors <= q.errors
      && q.nok - p.nok == |q.errors| - |p.errors|
      && (p.raised.None? ==> |q.stored| - |p.stored| + (q.nok - p.nok) + (if q.raised.Some? then 1 else 0) == 1)
      && (|q.errors| > |p.errors| ==> q.errors[|p.errors|].line == q.line)
  {
  }

  /** The run on the first `i + 1` rows is the run on the first `i` followed by row `i`. */
  lemma RunOneMore(rows: seq<RowHash>, cast: Typecast, i: nat)
    requires i < |rows|
    ensures ImportRows(rows[..i + 1], cast) == Step(ImportRows(rows[..i], cast), rows[i], cast)
  {
    assert rows[..i + 1][..i] == rows[..i];
    assert rows[..i + 1][i] == rows[i];
  }

  /** Row `i` (0-based) reached `create!` and its attributes were all known. */
  predicate Attempted(rows: seq<RowHash>, cast: Typecast, i: int) {
    0 <= i < |rows| && ImportRows(rows[..i], cast).raised.None? && New(rows[i], cast).Success?
  }

  /** The messages row `i` gets when validated against the rows stored before it. */
  function RowErrors(rows: seq<RowHash>, cast: Typecast, i: int): Messages
    requires Attempted(rows, cast, i)
  {
    Errors(New(rows[i], cast).value, ImportRows(rows[..i], cast).stored)
  }

  /** Row `i` was attempted and failed validation. */
  predicate Rejected(rows: seq<RowHash>, cast: Typecast, i: int) {
    Attempted(rows, cast, i) && RowErrors(rows, cast, i) != map[]
  }

  /** Row `i` was attempted, passed validation and fits its columns: it was stored. */
  predicate Accepted(rows: seq<RowHash>, cast: Typecast, i: int) {
    Attempted(rows, cast, i) && RowErrors(rows, cast, i) == map[] && Fits(New(rows[i], cast).value)
  }

  /** The entry for row `i`: its 1-based line, its values joined with ',' and its messages. */
  function Entry(rows: seq<RowHash>, cast: Typecast, i: int): RowError
    requires Attempted(rows, cast, i)
  {
    RowError(i + 1, JoinedValues(rows[i]), RowErrors(rows, cast, i))
  }

  /**
   * The answer of `import_data`: nil file, or an exception, or the report
   * with `ok = total - nok`. A report counts every data row in `total`, one
   * error entry per failed row in `nok`, and as many stored rows as `ok`.
   */
  function ImportOutcome(file: Option<seq<RowHash>>, cast: Typecast): (r: Result<Report, ImportError>)
    ensures file.None? ==> r == Failure(FileNotReadable)
    ensures r.Success? ==> file.Some? && r.value.total == |file.value|
    ensures r.Success? ==> r.value.nok == |r.value.errors| && 0 <= r.value.nok <= r.value.total
    ensures r.Success? ==> r.value.ok == r.value.total - r.value.nok == |ImportedLocations(file, cast)|
  {
    match file
    case None => Failure(FileNotReadable)
    case Some(rows) =>
      var p := ImportRows(rows, cast);
      if p.raised.Some? then Failure(p.raised.value)
      else Success(Report(p.line, p.line - p.nok, p.nok, p.errors))
  }

  /**
   * What the table holds after `import_data`: the table is cleared before
   * the file is opened, so a file that cannot be read leaves it empty.
   */
  function ImportedLocations(file: Option<seq<RowHash>>, cast: Typecast): (locs: seq<Location>)
    ensures file.None? ==> locs == []
  {
    match file
    case None => []
    case Some(rows) => ImportRows(rows, cast).stored
  }

  /**
   * `POST /import_data`: clear the table, then walk the rows, counting lines,
   * creating a location per row and recording each row that fails
   * validation. A row whose header names no attribute, or whose mystery
   * value does not fit its column, raises out of the action, leaving the
   * rows stored so far in the table.
   */
  method ImportData(store: Store, file: Option<seq<RowHash>>, cast: Typecast) returns (r: Result<Report, ImportError>)
    modifies store
    ensures store.Valid() && UniqueCities(store.Locations())
    ensures r == ImportOutcome(file, cast)
    ensures store.Locations() == ImportedLocations(file, cast)
    ensures store.nextId >= old(store.nextId)
  {
    store.DeleteAll();
    if file.None? {
      return Failure(FileNotReadable);
    }
    var rows := file.value;
    var line := 0;
    var nok := 0;
    var errors: seq<RowError> := [];
    var raised: Option<ImportError> := None;
    while line < |rows| && raised.None?
      invariant 0 <= line <= |rows|
      invariant store.Valid() && store.nextId >= old(store.nextId)
      invariant ImportRows(rows[..line], cast) == Progress(line, nok, errors, store.Locations(), raised)
    {
      RunOneMore(rows, cast, line);
      nok, errors, raised := ImportRow(store, rows[line], cast, line, nok, errors);
      line := line + 1;
    }
    InsertedValidlyIsUnique(store.Locations());
    if raised.Some? {
      RaisedEndsTheRun(rows, cast, line);
      return Failure(raised.value);
    }
    assert rows[..line] == rows;
    r := Success(Report(line, line - nok, nok, errors));
  }

  /**
   * The block run for each row: count the line, then `create!` the row's
   * hash, rescuing `RecordInvalid` into an error entry. An unknown attribute
   * or a range error is handed back in `raised` instead of being rescued.
   * The counters and the table end as one `Step` of the loop says.
   */
  method ImportRow(store: Store, h: RowHash, cast: Typecast, line: nat, nok: nat, errors: seq<RowError>)
    returns (nok': nat, errors': seq<RowError>, raised: Option<ImportError>)
    requires store.Valid()
    modifies store
    ensures store.Valid() && store.nextId >= old(store.nextId)
    ensures Progress(line + 1, nok', errors', store.Locations(), raised) ==
            Step(Progress(line, nok, errors, old(store.Locations()), None), h, cast)
  {
    nok', errors', raised := nok, errors, None;
    var attributes := New(h, cast);
    if attributes.Failure? {
      raised := Some(UnknownAttribute(attributes.error));
    } else {
      var created := store.Create(attributes.value);
      if created.Failure? {
        match created.error
        case RecordInvalid(messages) =>
          nok' := nok + 1;
          errors' := errors + [RowError(line + 1, JoinedValues(h), messages)];
        case OutOfRange(value) =>
          raised := Some(RangeError(value));
      }
    }
  }

  /** Once `create!` has raised, later rows change nothing: the run ended there. */
  lemma {:induction false} RaisedEndsTheRun(rows: seq<RowHash>, cast: Typecast, i: nat)
    requires i <= |rows| && ImportRows(rows[..i], cast).raised.Some?
    ensures ImportRows(rows, cast) == ImportRows(rows[..i], cast)
    decreases |rows|
  {
    if i < |rows| {
      var shorter := rows[..|rows| - 1];
      assert shorter[..i] == rows[..i];
      RaisedEndsTheRun(shorter, cast, i);
    } else {
      assert rows[..i] == rows;
    }
  }

  /**
   * The row `h`, read with `stored` in the table, raises `err` out of
   * `create!`: either one of its headers names no attribute, or it passes
   * validation and its mystery value does not fit the integer column.
   */
  predicate RaisesOn(h: RowHash, stored: seq<Location>, cast: Typecast, err: ImportError) {
    match New(h, cast)
    case Failure(name) => err == UnknownAttribute(name)
    case Success(loc) => Errors(loc, stored) == map[] && !Fits(loc) && err == RangeError(loc.mysteryValue.value)
  }

  /** Row `i` was read, nothing had raised before it, and it raised `err`. */
  predicate RaisedAt(rows: seq<RowHash>, cast: Typecast, i: int, err: ImportError) {
    0 <= i < |rows| && ImportRows(rows[..i], cast).raised.None? &&
    RaisesOn(rows[i], ImportRows(rows[..i], cast).stored, cast, err)
  }

  /** A turn that raises does so as `RaisesOn` says. */
  lemma StepRaises(p: Progress, h: RowHash, cast: Typecast)
    requires p.raised.None? && Step(p, h, cast).raised.Some?
    ensures RaisesOn(h, p.stored, cast, Step(p, h, cast).raised.value)
  {
  }

  /** A run that raised did so on the row of its last line, with what that row raises. */
  lemma {:induction false} RaisedOnLastLine(rows: seq<RowHash>, cast: Typecast)
    ensures var p := ImportRows(rows, cast);
      p.raised.Some? ==> 1 <= p.line && RaisedAt(rows, cast, p.line - 1, p.raised.value)
    decreases |rows|
  {
    if rows != [] {
      var shorter := rows[..|rows| - 1];
      RaisedOnLastLine(shorter, cast);
      var q, p := ImportRows(shorter, cast), ImportRows(rows, cast);
      if q.raised.Some? {
        var i := q.line - 1;
        assert p == q;
        assert shorter[..i] == rows[..i] && shorter[i] == rows[i];
        assert RaisedAt(shorter, cast, i, q.raised.value);
      } else if p.raised.Some? {
        StepRaises(q, rows[|rows| - 1], cast);
        assert p.line - 1 == |shorter|;
      }
    }
  }

  /**
   * Every row before the one that raised had its attributes assigned, and a
   * run that did not raise assigned every row.
   */
  lemma {:induction false} AssignedBeforeRaise(rows: seq<RowHash>, cast: Typecast)
    ensures var p := ImportRows(rows, cast);
      forall j :: 0 <= j < |rows| && (p.raised.None? || j < p.line - 1) ==> New(rows[j], cast).Success?
    decreases |rows|
  {
    if rows != [] {
      var n := |rows|;
      var shorter := rows[..n - 1];
      AssignedBeforeRaise(shorter, cast);
      var q, p := ImportRows(shorter, cast), ImportRows(rows, cast);
      forall j | 0 <= j < n && (p.raised.None? || j < p.line - 1) ensures New(rows[j], cast).Success? {
        if j < n - 1 {
          assert shorter[j] == rows[j];
        }
      }
    }
  }

  /**
   * A shorter run is a prefix of a longer one: rows stored and errors
   * recorded are never taken back, so both lists follow file order.
   */
  lemma {:induction false} RunExtends(rows: seq<RowHash>, cast: Typecast, i: nat)
    requires i <= |rows|
    ensures ImportRows(rows[..i], cast).stored <= ImportRows(rows, cast).stored
    ensures ImportRows(rows[..i], cast).errors <= ImportRows(rows, cast).errors
    decreases |rows|
  {
    if i < |rows| {
      var shorter := rows[..|rows| - 1];
      assert shorter[..i] == rows[..i];
      RunExtends(shorter, cast, i);
    } else {
      assert rows[..i] == rows;
    }
  }

  /** What row `i` adds to the errors: its entry when it is rejected. */
  function RowReport(rows: seq<RowHash>, cast: Typecast, i: int): Option<RowError> {
    if Rejected(rows, cast, i) then Some(Entry(rows, cast, i)) else None
  }

  /** What row `i` adds to the table: its location when it is accepted. */
  function RowStore(rows: seq<RowHash>, cast: Typecast, i: int): Option<Location> {
    if Accepted(rows, cast, i) then Some(New(rows[i], cast).value) else None
  }

  /** Row `i` adds to the errors only when it is rejected, and then adds its entry. */
  lemma RowEntry(rows: seq<RowHash>, cast: Typecast, i: nat)
    requires i < |rows|
    ensures ImportRows(rows[..i + 1], cast).errors ==
      ImportRows(rows[..i], cast).errors + if RowReport(rows, cast, i).Some? then [RowReport(rows, cast, i).value] else []
  {
    RunOneMore(rows, cast, i);
  }

  /** Row `i` adds to the stored rows only when it is accepted, and then adds its location. */
  lemma RowStored(rows: seq<RowHash>, cast: Typecast, i: nat)
    requires i < |rows|
    ensures ImportRows(rows[..i + 1], cast).stored ==
      ImportRows(rows[..i], cast).stored + if RowStore(rows, cast, i).Some? then [RowStore(rows, cast, i).value] else []
  {
    RunOneMore(rows, cast, i);
  }

  /** Row by row, what each adds to the errors. */
  function Reports(rows: seq<RowHash>, cast: Typecast): int -> Option<RowError> {
    i => RowReport(rows, cast, i)
  }

  /** Row by row, what each adds to the table. */
  function Stores(rows: seq<RowHash>, cast: Typecast): int -> Option<Location> {
    i => RowStore(rows, cast, i)
  }

  /** After `n` rows the errors are exactly the entries of the rejected rows, in file order. */
  lemma {:induction false} ErrorsAreRejectedEntries(rows: seq<RowHash>, cast: Typecast, n: nat)
    requires n <= |rows|
    ensures ImportRows(rows[..n], cast).errors == Collect(Reports(rows, cast), n)
  {
    if n == 0 {
      assert rows[..0] == [];
    } else {
      ErrorsAreRejectedEntries(rows, cast, n - 1);
      RowEntry(rows, cast, n - 1);
      assert Reports(rows, cast)(n - 1) == RowReport(rows, cast, n - 1);
    }
  }

  /** After `n` rows the table holds exactly the accepted rows, in file order. */
  lemma {:induction false} StoredAreAcceptedLocations(rows: seq<RowHash>, cast: Typecast, n: nat)
    requires n <= |rows|
    ensures ImportRows(rows[..n], cast).stored == Collect(Stores(rows, cast), n)
  {
    if n == 0 {
      assert rows[..0] == [];
    } else {
      StoredAreAcceptedLocations(rows, cast, n - 1);
      RowStored(rows, cast, n - 1);
      assert Stores(rows, cast)(n - 1) == RowStore(rows, cast, n - 1);
    }
  }

  /**
   * The report's errors are the entries of the rejected rows in file order,
   * and the table holds the accepted rows in file order.
   */
  lemma ImportPartitionsRows(rows: seq<RowHash>, cast: Typecast)
    ensures ImportRows(rows, cast).errors == Collect(Reports(rows, cast), |rows|)
    ensures ImportRows(rows, cast).stored == Collect(Stores(rows, cast), |rows|)
  {
    ErrorsAreRejectedEntries(rows, cast, |rows|);
    StoredAreAcceptedLocations(rows, cast, |rows|);
    assert rows[..|rows|] == rows;
  }

  /** The lines of `errs` strictly increase. */
  predicate LinesIncrease(errs: seq<RowError>) {
    forall j, k :: 0 <= j < k < |errs| ==> errs[j].line < errs[k].line
  }

  /**
   * `e` names a rejected row by its 1-based line and is that row's entry:
   * its values joined with ',' and the messages it was refused with.
   */
  predicate EntryOfRejectedRow(rows: seq<RowHash>, cast: Typecast, e: RowError) {
    1 <= e.line && Rejected(rows, cast, e.line - 1) && e == Entry(rows, cast, e.line - 1)
  }

  /** Each entry after `n` rows is the entry of a rejected row among them. */
  lemma RejectedEntryIsOfItsLine(rows: seq<RowHash>, cast: Typecast, n: nat, k: nat)
    requires k < |Collect(Reports(rows, cast), n)|
    ensures Collect(Reports(rows, cast), n)[k].line <= n
    ensures EntryOfRejectedRow(rows, cast, Collect(Reports(rows, cast), n)[k])
  {
    var i := Selected(Reports(rows, cast), n)[k];
    assert RowReport(rows, cast, i).Some?;
  }

  /** The entries of the rejected rows come in strictly increasing line order. */
  lemma RejectedEntriesInOrder(rows: seq<RowHash>, cast: Typecast, n: nat)
    ensures LinesIncrease(Collect(Reports(rows, cast), n))
  {
    var errs, ps := Collect(Reports(rows, cast), n), Selected(Reports(rows, cast), n);
    forall j, k | 0 <= j < k < |errs| ensures errs[j].line < errs[k].line {
      assert RowReport(rows, cast, ps[j]).Some? && RowReport(rows, cast, ps[k]).Some?;
    }
  }

  /**
   * A report lists exactly the entries of the rejected rows, in file order:
   * their lines strictly increase and lie within `1..total`.
   */
  lemma ReportListsRejectedRows(rows: seq<RowHash>, cast: Typecast)
    ensures var r := ImportOutcome(Some(rows), cast);
      r.Success? ==>
        && r.value.errors == Collect(Reports(rows, cast), |rows|)
        && LinesIncrease(r.value.errors)
        && forall k :: 0 <= k < |r.value.errors| ==> 1 <= r.value.errors[k].line <= r.value.total
  {
    ImportPartitionsRows(rows, cast);
    RejectedEntriesInOrder(rows, cast, |rows|);
    var errs := Collect(Reports(rows, cast), |rows|);
    forall k | 0 <= k < |errs| ensures 1 <= errs[k].line <= |rows| {
      RejectedEntryIsOfItsLine(rows, cast, |rows|, k);
    }
  }

  /** Every rejected row has its entry among the errors. */
  lemma RejectedRowIsReported(rows: seq<RowHash>, cast: Typecast, i: nat)
    requires Rejected(rows, cast, i)
    ensures Entry(rows, cast, i) in ImportRows(rows, cast).errors
  {
    RowEntry(rows, cast, i);
    RunExtends(rows, cast, i + 1);
    var before, after := ImportRows(rows[..i], cast).errors, ImportRows(rows[..i + 1], cast).errors;
    assert after[|before|] == Entry(rows, cast, i);
    assert ImportRows(rows, cast).errors[|before|] == after[|before|];
  }

  /** Every accepted row ends up in the table. */
  lemma AcceptedRowIsStored(rows: seq<RowHash>, cast: Typecast, i: nat)
    requires Accepted(rows, cast, i)
    ensures New(rows[i], cast).value in ImportRows(rows, cast).stored
  {
    ImportPartitionsRows(rows, cast);
    SelectedComplete(Stores(rows, cast), |rows|, i);
    var ps := Selected(Stores(rows, cast), |rows|);
    var k :| 0 <= k < |ps| && ps[k] == i;
    assert Collect(Stores(rows, cast), |rows|)[k] == New(rows[i], cast).value;
  }

  /** The last row adds to the stored rows only when it is accepted, and then adds its location. */
  lemma LastRowStored(rows: seq<RowHash>, cast: Typecast)
    requires rows != []
    ensures var q, p := ImportRows(rows[..|rows| - 1], cast), ImportRows(rows, cast);
      if Accepted(rows, cast, |rows| - 1) then p.stored == q.stored + [New(rows[|rows| - 1], cast).value]
      else p.stored == q.stored
  {
  }

  /** Every row stored passed validation against the rows stored before it. */
  lemma {:induction false} StoredInsertedValidly(rows: seq<RowHash>, cast: Typecast)
    ensures InsertedValidly(ImportRows(rows, cast).stored)
    decreases |rows|
  {
    if rows != [] {
      var shorter := rows[..|rows| - 1];
      StoredInsertedValidly(shorter, cast);
      LastRowStored(rows, cast);
      var q, p := ImportRows(shorter, cast), ImportRows(rows, cast);
      if p.stored != q.stored {
        forall k | 0 <= k < |p.stored| ensures Errors(p.stored[k], p.stored[..k]) == map[] {
          if k < |q.stored| {
            assert p.stored[..k] == q.stored[..k];
          } else {
            assert p.stored[..k] == q.stored;
          }
        }
      }
    }
  }

  /** After a run no two stored rows with a city that is not blank share its scope. */
  lemma UniqueAfterImport(rows: seq<RowHash>, cast: Typecast)
    ensures UniqueCities(ImportRows(rows, cast).stored)
  {
    StoredInsertedValidly(rows, cast);
    InsertedValidlyIsUnique(ImportRows(rows, cast).stored);
  }

  /** `GET /locations`: every stored row, in the order the model keeps them. */
  method Index(store: Store) returns (locations: seq<Record>)
    ensures locations == store.records
  {
    locations := store.records;
  }

  /** `GET /locations/:id`: `set_location` finds the row or raises `RecordNotFound`. */
  method Show(store: Store, id: int) returns (r: Result<Record, LookupError>)
    ensures r.Success? <==> exists k :: 0 <= k < |store.records| && store.records[k].id == id
    ensures r.Success? ==> r.value.id == id && r.value in store.records
    ensures r.Failure? ==> r.error == RecordNotFound(id)
  {
    var found := FindIn(store.records, id);
    if found.Some? {
      r := Success(found.value);
    } else {
      r := Failure(RecordNotFound(id));
    }
  }
}
