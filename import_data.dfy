/** The import script: a CSV row coerced into the constructor's input
    (`safeParseInt` for the integer columns, '' for missing text), and the
    import loop that clears the store, saves each row and counts the rows
    that were saved, skipping the ones that fail validation. */
module ImportData {
  import opened Wrappers
  import opened Text
  import opened Numbers
  import opened CarModel
  import opened Store

  /** A CSV row: column name to trimmed cell text; a column the file lacks is
      absent. `accelSec` and `date` are what `safeParseFloat` and
      `safeParseDate` make of the AccelSec and Date cells. */
  datatype CsvRow = CsvRow(cells: map<string, string>, accelSec: real, date: int)

  /** `record[column]`: the cell, or None for `undefined`. */
  function Cell(row: CsvRow, column: string): Option<string> {
    if column in row.cells then Some(row.cells[column]) else None
  }

  /** `record[column] || ''`: a missing or empty cell gives ''. */
  function TextCell(row: CsvRow, column: string): (r: string)
    ensures column !in row.cells ==> r == ""
    ensures column in row.cells ==> r == row.cells[column]
  {
    Cell(row, column).GetOr("")
  }

  /** `safeParseInt(value)`: 0 for a missing or empty cell and for a cell
      `parseInt` reads as NaN, otherwise the integer `parseInt` reads. */
  function SafeParseInt(value: Option<string>): (r: int)
    ensures value.None? || value == Some("") ==> r == 0
    ensures value.Some? && ParseInt(value.value).None? ==> r == 0
    ensures value.Some? && value.value != "" && ParseInt(value.value).Some? ==>
      r == ParseInt(value.value).value
  {
    if value.None? || value.value == "" then 0
    else
      match ParseInt(value.value)
      case None => 0
      case Some(n) => n
  }

  /** A cell holding a rendered integer reads back as that integer. */
  lemma SafeParseIntDecimal(n: int)
    ensures SafeParseInt(Some(IntToDecimal(n))) == n
  {
    ParseIntDecimal(n);
  }

  /** A cell that starts with digits reads as those digits, whatever
      non-digit text follows them (`"250 km"` gives 250, `"12x"` gives 12),
      unless the digits are a lone `0` followed by `x` or `X`, which starts a
      hexadecimal number. */
  lemma SafeParseIntLeadingDigits(ds: string, rest: string)
    requires ds != [] && AllDigits(ds)
    requires rest != [] ==> !IsDigit(rest[0]) && (ds == "0" ==> rest[0] != 'x' && rest[0] != 'X')
    ensures AllDigitsOf(ds, 10) && SafeParseInt(Some(ds + rest)) == DigitsValue(ds, 10)
  {
    ParseIntDigitPrefix(ds, rest);
  }

  /** The constructor input the script builds for a row. */
  function RowToInput(row: CsvRow): (input: CarInput)
    ensures input.brand == Some(TextCell(row, "Brand")) && input.model == Some(TextCell(row, "Model"))
    ensures input.accelSec == Some(row.accelSec)
    ensures input.topSpeedKmH == Some(SafeParseInt(Cell(row, "TopSpeed_KmH")))
    ensures input.rangeKm == Some(SafeParseInt(Cell(row, "Range_Km")))
    ensures input.efficiencyWhKm == Some(SafeParseInt(Cell(row, "Efficiency_WhKm")))
    ensures input.fastChargeKmH == Some(SafeParseInt(Cell(row, "FastCharge_KmH")))
    ensures input.rapidCharge == Some(TextCell(row, "RapidCharge"))
    ensures input.powerTrain == Some(TextCell(row, "PowerTrain"))
    ensures input.plugType == Some(TextCell(row, "PlugType"))
    ensures input.bodyStyle == Some(TextCell(row, "BodyStyle"))
    ensures input.segment == Some(TextCell(row, "Segment"))
    ensures input.seats == Some(SafeParseInt(Cell(row, "Seats")))
    ensures input.priceEuro == Some(SafeParseInt(Cell(row, "PriceEuro")))
    ensures input.date == Some(row.date)
  {
    CarInput(
      brand := Some(TextCell(row, "Brand")),
      model := Some(TextCell(row, "Model")),
      accelSec := Some(row.accelSec),
      topSpeedKmH := Some(SafeParseInt(Cell(row, "TopSpeed_KmH"))),
      rangeKm := Some(SafeParseInt(Cell(row, "Range_Km"))),
      efficiencyWhKm := Some(SafeParseInt(Cell(row, "Efficiency_WhKm"))),
      fastChargeKmH := Some(SafeParseInt(Cell(row, "FastCharge_KmH"))),
      rapidCharge := Some(TextCell(row, "RapidCharge")),
      powerTrain := Some(TextCell(row, "PowerTrain")),
      plugType := Some(TextCell(row, "PlugType")),
      bodyStyle := Some(TextCell(row, "BodyStyle")),
      segment := Some(TextCell(row, "Segment")),
      seats := Some(SafeParseInt(Cell(row, "Seats"))),
      priceEuro := Some(SafeParseInt(Cell(row, "PriceEuro"))),
      date := Some(row.date))
  }

  /** The car a row becomes once saved, with its text cells and coerced numbers. */
  lemma RowToCar(row: CsvRow, id: nat, now: int)
    requires NewCar(RowToInput(row), id, now).Success?
    ensures var c := NewCar(RowToInput(row), id, now).value;
      && c.brand == Trim(TextCell(row, "Brand")) && c.model == Trim(TextCell(row, "Model"))
      && ("RapidCharge" !in row.cells ==> c.rapidCharge == "")
      && ("PowerTrain" !in row.cells ==> c.powerTrain == "")
      && ("PlugType" !in row.cells ==> c.plugType == "")
      && ("BodyStyle" !in row.cells ==> c.bodyStyle == "")
      && ("Segment" !in row.cells ==> c.segment == "")
      && ("TopSpeed_KmH" !in row.cells ==> c.topSpeedKmH == 0)
      && ("Range_Km" !in row.cells ==> c.rangeKm == 0)
      && ("Efficiency_WhKm" !in row.cells ==> c.efficiencyWhKm == 0)
      && ("FastCharge_KmH" !in row.cells ==> c.fastChargeKmH == 0)
      && ("Seats" !in row.cells ==> c.seats == 0)
      && ("PriceEuro" !in row.cells ==> c.priceEuro == 0)
      && c.accelSec == row.accelSec && c.date == row.date
  {
  }

  /** A row saves exactly when its Brand and Model cells are not blank. */
  predicate RowSaves(row: CsvRow) {
    Trim(TextCell(row, "Brand")) != [] && Trim(TextCell(row, "Model")) != []
  }

  lemma RowSavesIff(row: CsvRow, id: nat, now: int)
    ensures NewCar(RowToInput(row), id, now).Success? <==> RowSaves(row)
  {
  }

  /** The records the import leaves, for rows processed in order with
      identities counted from `firstId`: each row that saves adds one record. */
  function Imported(rows: seq<CsvRow>, firstId: nat): seq<Car> {
    if rows == [] then []
    else
      AddRow(Imported(rows[..|rows| - 1], firstId), rows[|rows| - 1], firstId)
  }

  /** One step of the import: the records so far, plus the row's record when it saves. */
  function AddRow(prev: seq<Car>, row: CsvRow, firstId: nat): seq<Car> {
    match NewCar(RowToInput(row), firstId + |prev|, row.date)
    case Success(c) => prev + [c]
    case Failure(_) => prev
  }

  /** The rows that save, in file order. */
  function SavedRows(rows: seq<CsvRow>): (r: seq<CsvRow>)
    ensures |r| <= |rows| && forall k :: 0 <= k < |r| ==> RowSaves(r[k])
    ensures forall row :: row in r <==> row in rows && RowSaves(row)
  {
    if rows == [] then []
    else
      var prev := SavedRows(rows[..|rows| - 1]);
      assert rows == rows[..|rows| - 1] + [rows[|rows| - 1]];
      if RowSaves(rows[|rows| - 1]) then prev + [rows[|rows| - 1]] else prev
  }

  /** The saving rows keep their file order: selecting them distributes over
      concatenation. */
  lemma {:induction false} SavedRowsAppend(a: seq<CsvRow>, b: seq<CsvRow>)
    ensures SavedRows(a + b) == SavedRows(a) + SavedRows(b)
  {
    if b == [] {
      assert a + b == a;
    } else {
      var init := b[..|b| - 1];
      assert (a + b)[..|a + b| - 1] == a + init;
      assert (a + b)[|a + b| - 1] == b[|b| - 1];
      SavedRowsAppend(a, init);
    }
  }

  /** Row `k` of `rows` saves as record `k` of `cars`, under identity `firstId + k`. */
  predicate SavesAs(rows: seq<CsvRow>, cars: seq<Car>, firstId: nat) {
    && |rows| == |cars|
    && forall k :: 0 <= k < |rows| ==>
      NewCar(RowToInput(rows[k]), firstId + k, rows[k].date) == Success(cars[k])
  }

  lemma SavesAsAppend(rows: seq<CsvRow>, cars: seq<Car>, row: CsvRow, c: Car, firstId: nat)
    requires SavesAs(rows, cars, firstId)
    requires NewCar(RowToInput(row), firstId + |rows|, row.date) == Success(c)
    ensures SavesAs(rows + [row], cars + [c], firstId)
  {
    var rs := rows + [row];
    var cs := cars + [c];
    forall k | 0 <= k < |rs|
      ensures NewCar(RowToInput(rs[k]), firstId + k, rs[k].date) == Success(cs[k])
    {
      if k < |rows| {
        assert rs[k] == rows[k] && cs[k] == cars[k];
      }
    }
  }

  /** The k-th imported record is the k-th row that saves, under identity
      `firstId + k`: no failing row leaves a record and no saving row is lost. */
  lemma {:induction false} ImportedRows(rows: seq<CsvRow>, firstId: nat)
    ensures SavesAs(SavedRows(rows), Imported(rows, firstId), firstId)
  {
    if rows != [] {
      var init := rows[..|rows| - 1];
      ImportedRows(init, firstId);
      ImportedRowsStep(SavedRows(init), Imported(init, firstId), rows[|rows| - 1], firstId);
    }
  }

  /** One step of `ImportedRows`: a saving row extends both sides, a failing
      row neither. */
  lemma ImportedRowsStep(saved: seq<CsvRow>, prev: seq<Car>, last: CsvRow, firstId: nat)
    requires SavesAs(saved, prev, firstId)
    ensures SavesAs(if RowSaves(last) then saved + [last] else saved, AddRow(prev, last, firstId), firstId)
  {
    RowSavesIff(last, firstId + |prev|, last.date);
    AddRowOutcome(prev, last, firstId);
    if RowSaves(last) {
      var c := NewCar(RowToInput(last), firstId + |prev|, last.date).value;
      SavesAsAppend(saved, prev, last, c, firstId);
    }
  }

  /** Processing one more row appends its record when it saves. */
  lemma ImportedNext(rows: seq<CsvRow>, i: nat, firstId: nat)
    requires i < |rows|
    ensures Imported(rows[..i + 1], firstId) == AddRow(Imported(rows[..i], firstId), rows[i], firstId)
  {
    assert rows[..i + 1][..i] == rows[..i];
  }

  /** Imported records carry consecutive identities from `firstId` and pass validation. */
  lemma {:induction false} ImportedConsistent(rows: seq<CsvRow>, firstId: nat)
    ensures var r := Imported(rows, firstId);
      && (forall k :: 0 <= k < |r| ==> r[k].id == firstId + k)
      && Consistent(r, firstId + |r|)
  {
    if rows != [] {
      var init := rows[..|rows| - 1];
      var last := rows[|rows| - 1];
      ImportedConsistent(init, firstId);
      var prev := Imported(init, firstId);
      AddRowOutcome(prev, last, firstId);
      var saved := NewCar(RowToInput(last), firstId + |prev|, last.date);
      if saved.Success? {
        AppendConsistent(prev, firstId + |prev|, saved.value);
      }
    }
  }

  /** A step adds the row's record when the row saves and nothing otherwise. */
  lemma AddRowOutcome(prev: seq<Car>, row: CsvRow, firstId: nat)
    ensures var saved := NewCar(RowToInput(row), firstId + |prev|, row.date);
      AddRow(prev, row, firstId) == if saved.Success? then prev + [saved.value] else prev
  {
  }

  /** One pass of the loop body: the row's constructor input is saved, and
      the outcome reports whether a record was added. */
  method ImportRow(store: CarStore, row: CsvRow, ghost firstId: nat) returns (saved: bool)
    requires store.Valid() && store.nextId == firstId + |store.records|
    modifies store
    ensures store.Valid() && store.nextId == firstId + |store.records|
    ensures store.records == AddRow(old(store.records), row, firstId)
    ensures saved <==> |store.records| == |old(store.records)| + 1
  {
    AddRowOutcome(store.records, row, firstId);
    var r := store.Save(RowToInput(row), row.date);
    saved := r.Success?;
  }

  /** The import leaves one record per saving row. */
  lemma ImportedCount(rows: seq<CsvRow>, firstId: nat)
    ensures |Imported(rows, firstId)| == |SavedRows(rows)|
  {
    ImportedRows(rows, firstId);
  }

  /** What the finished import leaves: one record per saving row, every
      identity at or above `firstId`, and a consistent store. */
  lemma ImportedFinal(rows: seq<CsvRow>, firstId: nat)
    ensures var r := Imported(rows, firstId);
      && |r| == |SavedRows(rows)|
      && Consistent(r, firstId + |r|)
      && forall c :: c in r ==> c.id >= firstId
  {
    ImportedCount(rows, firstId);
    ImportedConsistent(rows, firstId);
    var r := Imported(rows, firstId);
    forall c | c in r ensures c.id >= firstId {
      var k :| 0 <= k < |r| && r[k] == c;
    }
  }

  /** `importData()`: clears the store, then saves the rows one by one; a row
      that fails validation is skipped and the loop goes on. Returns the
      number of rows saved. */
  method ImportData(store: CarStore, rows: seq<CsvRow>) returns (count: nat)
    requires store.Valid()
    modifies store
    ensures store.Valid()
    ensures store.records == Imported(rows, old(store.nextId))
    ensures count == |store.records| == |SavedRows(rows)|
    ensures forall c :: c in store.records ==> c.id >= old(store.nextId)
  {
    store.DeleteMany();
    ghost var firstId := store.nextId;
    count := 0;
    var i := 0;
    assert rows[..i] == [];
    assert Imported([], firstId) == [];
    while i < |rows|
      invariant 0 <= i <= |rows|
      invariant store.Valid()
      invariant store.records == Imported(rows[..i], firstId)
      invariant store.nextId == firstId + count
      invariant count == |store.records|
    {
      ImportedNext(rows, i, firstId);
      var saved := ImportRow(store, rows[i], firstId);
      if saved {
        count := count + 1;
      }
      i := i + 1;
    }
    assert rows[..i] == rows;
    ImportedFinal(rows, firstId);
  }
}
