/** The grid component's pure logic: the column definitions derived from the
    first row's keys, the page it reports to its parent, and the number of
    pages it shows. */
module DataGrid {
  import opened Wrappers
  import opened Text
  import opened Numbers
  import QueryEngine

  /** The filter a column offers: ag-Grid's number filter, its text filter,
      or none (`filter: false`). */
  datatype ColumnFilter = NumberFilter | TextFilter | NoFilter

  /** A column definition, with the grid's defaults filled in. `width` is
      None when the column sets none. */
  datatype ColDef = ColDef(
    field: string,
    headerName: string,
    filter: ColumnFilter,
    sortable: bool,
    flex: nat,
    width: Option<nat>)

  /** The keys of a row object, in `Object.keys` order. */
  type RowKeys = seq<string>

  /** The store's own keys, which get no column. */
  predicate Excluded(key: string) {
    key == "_id" || key == "__v"
  }

  /** `keys.filter(key => key !== '_id' && key !== '__v')`. */
  function KeptKeys(keys: RowKeys): (r: RowKeys)
    ensures |r| <= |keys|
    ensures forall k :: k in r <==> k in keys && !Excluded(k)
  {
    if keys == [] then []
    else if Excluded(keys[0]) then KeptKeys(keys[1..])
    else [keys[0]] + KeptKeys(keys[1..])
  }

  /** Filtering keeps the keys' order: it distributes over concatenation. */
  lemma {:induction false} KeptKeysAppend(a: RowKeys, b: RowKeys)
    ensures KeptKeys(a + b) == KeptKeys(a) + KeptKeys(b)
  {
    if a == [] {
      assert a + b == b;
    } else {
      assert (a + b)[0] == a[0];
      assert (a + b)[1..] == a[1..] + b;
      KeptKeysAppend(a[1..], b);
    }
  }

  /** `key.replace(/([A-Z])/g, ' $1')`: a space before every ASCII capital. */
  function InsertSpaces(key: string): (r: string)
    ensures |r| >= |key|
    ensures forall j :: 0 <= j < |r| && IsUpper(r[j]) ==> j > 0 && r[j - 1] == ' '
  {
    if key == [] then []
    else (if IsUpper(key[0]) then [' ', key[0]] else [key[0]]) + InsertSpaces(key[1..])
  }

  /** The only whitespace in `s` is the plain space. */
  predicate OnlyPlainSpaces(s: string) {
    forall j :: 0 <= j < |s| && IsWhitespace(s[j]) ==> s[j] == ' '
  }

  /** Every space in `s` is followed by a capital. */
  predicate SpacesBeforeCapitals(s: string) {
    forall j :: 0 <= j < |s| && s[j] == ' ' ==> j + 1 < |s| && IsUpper(s[j + 1])
  }

  /** For a key without whitespace, every space of the spaced key is one the
      replacement inserted: a capital follows it. */
  lemma {:induction false} InsertSpacesOnlyBeforeCapitals(key: string)
    requires NoWhitespace(key)
    ensures SpacesBeforeCapitals(InsertSpaces(key))
    ensures OnlyPlainSpaces(InsertSpaces(key))
  {
    if key != [] {
      var head := if IsUpper(key[0]) then [' ', key[0]] else [key[0]];
      var rest := InsertSpaces(key[1..]);
      assert NoWhitespace(key[1..]);
      InsertSpacesOnlyBeforeCapitals(key[1..]);
      assert InsertSpaces(key) == head + rest;
      assert !IsWhitespace(key[0]) && IsWhitespace(' ');
      forall j | 0 <= j < |head + rest| && (head + rest)[j] == ' '
        ensures j + 1 < |head + rest| && IsUpper((head + rest)[j + 1])
      {
        if j < |head| {
          assert IsUpper(key[0]) && j == 0 && (head + rest)[1] == key[0];
        } else {
          var i := j - |head|;
          assert rest[i] == ' ';
          assert i + 1 < |rest| && IsUpper(rest[i + 1]);
          assert (head + rest)[j + 1] == rest[i + 1];
        }
      }
      forall j | 0 <= j < |head + rest| && IsWhitespace((head + rest)[j])
        ensures (head + rest)[j] == ' '
      {
        if j >= |head| {
          assert (head + rest)[j] == rest[j - |head|];
        }
      }
    }
  }

  /** `key.replace(/([A-Z])/g, ' $1').trim()`: the header starts and ends
      with no whitespace, and it is the key once its spaces are deleted. */
  function HeaderName(key: string): (r: string)
    ensures r != [] ==> !IsWhitespace(r[0]) && !IsWhitespace(r[|r| - 1])
    ensures RemoveWhitespace(r) == RemoveWhitespace(key)
  {
    RemoveWhitespaceTrim(InsertSpaces(key));
    RemoveWhitespaceInsertSpaces(key);
    Trim(InsertSpaces(key))
  }

  predicate NoWhitespace(s: string) {
    forall i :: 0 <= i < |s| ==> !IsWhitespace(s[i])
  }

  /** The inserted spaces are the only whitespace `InsertSpaces` adds. */
  lemma {:induction false} RemoveWhitespaceInsertSpaces(key: string)
    ensures RemoveWhitespace(InsertSpaces(key)) == RemoveWhitespace(key)
  {
    if key != [] {
      var head := if IsUpper(key[0]) then [' ', key[0]] else [key[0]];
      RemoveWhitespaceInsertSpaces(key[1..]);
      RemoveWhitespaceAppend(head, InsertSpaces(key[1..]));
      RemoveWhitespaceAppend([key[0]], key[1..]);
      assert key == [key[0]] + key[1..];
      if IsUpper(key[0]) {
        assert head == [' '] + [key[0]];
        RemoveWhitespaceAppend([' '], [key[0]]);
      }
    }
  }

  lemma {:induction false} RemoveNoWhitespace(s: string)
    requires NoWhitespace(s)
    ensures RemoveWhitespace(s) == s
  {
    if s != [] {
      RemoveNoWhitespace(s[1..]);
    }
  }

  /** For a key without whitespace (every schema path), deleting the spaces
      from its header gives back the key. */
  lemma HeaderNameKey(key: string)
    requires NoWhitespace(key)
    ensures RemoveWhitespace(HeaderName(key)) == key
  {
    RemoveNoWhitespace(key);
  }

  /** For a non-empty key without whitespace, the header is the spaced key,
      less the one leading space a capital first letter gets; every capital
      after the first character follows a space. */
  lemma HeaderNameShape(key: string)
    requires key != [] && NoWhitespace(key)
    ensures var spaced := InsertSpaces(key);
      HeaderName(key) == if IsUpper(key[0]) then spaced[1..] else spaced
    ensures var h := HeaderName(key);
      forall j :: 0 < j < |h| && IsUpper(h[j]) ==> h[j - 1] == ' '
  {
    var spaced := InsertSpaces(key);
    var rest := InsertSpaces(key[1..]);
    InsertSpacesEnds(key);
    if IsUpper(key[0]) {
      assert spaced == [' '] + ([key[0]] + rest);
      var t := spaced[1..];
      assert t == [key[0]] + rest;
      assert TrimStart(spaced) == TrimStart(t);
      TrimOfTrimmed(t);
    } else {
      assert spaced[0] == key[0];
      TrimOfTrimmed(spaced);
    }
  }

  /** For a key without whitespace, every space in the header separates two
      words: a capital follows it. */
  lemma HeaderNameSpaces(key: string)
    requires key != [] && NoWhitespace(key)
    ensures SpacesBeforeCapitals(HeaderName(key))
    ensures OnlyPlainSpaces(HeaderName(key))
  {
    HeaderNameShape(key);
    InsertSpacesOnlyBeforeCapitals(key);
    var spaced := InsertSpaces(key);
    var h := HeaderName(key);
    if IsUpper(key[0]) {
      forall j | 0 <= j < |h| && h[j] == ' '
        ensures j + 1 < |h| && IsUpper(h[j + 1])
      {
        assert spaced[j + 1] == ' ';
      }
      forall j | 0 <= j < |h| && IsWhitespace(h[j]) ensures h[j] == ' ' {
        assert h[j] == spaced[j + 1];
      }
    }
  }

  /** The spaced key ends with the key's last character, and it starts with
      the key's first character, after one space when that is a capital. */
  lemma {:induction false} InsertSpacesEnds(key: string)
    requires key != []
    ensures var spaced := InsertSpaces(key);
      && spaced != []
      && spaced[|spaced| - 1] == key[|key| - 1]
      && (IsUpper(key[0]) ==> |spaced| >= 2 && spaced[0] == ' ' && spaced[1] == key[0])
      && (!IsUpper(key[0]) ==> spaced[0] == key[0])
  {
    if |key| > 1 {
      InsertSpacesEnds(key[1..]);
    }
  }

  /** `key.includes('Km') || key.includes('Sec') || key.includes('Euro')`
      selects the number filter; every other key gets the text filter. */
  function FilterFor(key: string): ColumnFilter {
    if Includes(key, "Km") || Includes(key, "Sec") || Includes(key, "Euro") then NumberFilter
    else TextFilter
  }

  /** A key gets the number filter exactly when `Km`, `Sec` or `Euro` occurs
      in it at some position, and the text filter otherwise. */
  lemma FilterForIff(key: string)
    ensures FilterFor(key) == NumberFilter <==>
      exists i :: OccursAt(key, "Km", i) || OccursAt(key, "Sec", i) || OccursAt(key, "Euro", i)
    ensures FilterFor(key) != NoFilter
  {
    IncludesIff(key, "Km");
    IncludesIff(key, "Sec");
    IncludesIff(key, "Euro");
  }

  /** The column of one data key: sortable and flex 1 from the defaults. */
  function DataColumn(key: string): ColDef {
    ColDef(key, HeaderName(key), FilterFor(key), true, 1, None)
  }

  /** The Actions column: not filterable, not sortable, 120 wide, flex 0. */
  const ActionsColumn: ColDef := ColDef("actions", "Actions", NoFilter, false, 0, Some(120))

  /** `columnDefs`: no columns for no rows; otherwise one column per kept key
      of the first row, in order, then the Actions column last. */
  function ColumnDefs(rows: seq<RowKeys>): (r: seq<ColDef>)
    ensures rows == [] <==> r == []
    ensures rows != [] ==>
      && |r| == |KeptKeys(rows[0])| + 1
      && r[|r| - 1] == ActionsColumn
      && forall k :: 0 <= k < |r| - 1 ==> r[k] == DataColumn(KeptKeys(rows[0])[k])
  {
    if rows == [] then []
    else
      var keys := KeptKeys(rows[0]);
      seq(|keys|, k requires 0 <= k < |keys| => DataColumn(keys[k])) + [ActionsColumn]
  }

  /** Exactly one column is neither sortable nor filterable, the last one, and
      the data columns all come from kept keys. */
  lemma ColumnDefsActionsLast(rows: seq<RowKeys>)
    requires rows != []
    ensures var r := ColumnDefs(rows);
      && (forall k :: 0 <= k < |r| ==> (!r[k].sortable <==> k == |r| - 1))
      && (forall k :: 0 <= k < |r| ==> (r[k].filter == NoFilter <==> k == |r| - 1))
      && (forall k :: 0 <= k < |r| - 1 ==> r[k].field in rows[0] && !Excluded(r[k].field))
  {
    var r := ColumnDefs(rows);
    var keys := KeptKeys(rows[0]);
    forall k | 0 <= k < |r| - 1
      ensures r[k].sortable && r[k].filter != NoFilter
      ensures r[k].field in rows[0] && !Excluded(r[k].field)
    {
      FilterForIff(keys[k]);
      assert keys[k] in keys;
    }
  }

  /** The grid's pagination state: its 0-based current page and page size. */
  datatype GridPage = GridPage(currentPage: nat, pageSize: nat)

  /** What a pagination event says changed. */
  datatype PaginationEvent = PaginationEvent(newPage: bool, newPageSize: bool)

  /** `onPaginationChanged`: with no grid API nothing is reported; otherwise
      the 1-based page and the page size are reported when the event carries
      a new page or a new page size and the parent passed an `onPageChange`
      callback (`listening`); the optional call `onPageChange?.(…)` does
      nothing without one. */
  function PageReported(api: Option<GridPage>, event: PaginationEvent, listening: bool): (r: Option<(int, nat)>)
    ensures r.Some? <==> listening && api.Some? && (event.newPage || event.newPageSize)
    ensures r.Some? ==> r.value.0 == api.value.currentPage + 1 && r.value.0 >= 1
    ensures r.Some? ==> r.value.1 == api.value.pageSize
  {
    if api.None? then None
    else if event.newPage || event.newPageSize then
      if listening then Some((api.value.currentPage + 1, api.value.pageSize)) else None
    else None
  }

  /** Handing the reported page to the list service skips exactly the rows
      before the grid's 0-based page. */
  lemma ReportedPageSkip(api: Option<GridPage>, event: PaginationEvent, listening: bool)
    requires PageReported(api, event, listening).Some? && api.value.pageSize >= 1
    ensures var (page, size) := PageReported(api, event, listening).value;
      QueryEngine.Skip(page, size) == api.value.currentPage * api.value.pageSize
  {
  }

  /** `Math.ceil(totalRows / pageSize)`, the page count the grid shows. */
  function TotalPages(totalRows: nat, pageSize: nat): (r: nat)
    requires pageSize > 0
    ensures r * pageSize >= totalRows
    ensures r > 0 ==> (r - 1) * pageSize < totalRows
  {
    CeilDiv(totalRows, pageSize)
  }

  /** A 0-based page that starts at an existing row is within the page count,
      so the page the grid reports never runs past the last page. */
  lemma PageWithinTotal(totalRows: nat, pageSize: nat, currentPage: nat)
    requires pageSize > 0 && currentPage * pageSize < totalRows
    ensures currentPage + 1 <= TotalPages(totalRows, pageSize)
  {
    var t := TotalPages(totalRows, pageSize);
    if currentPage + 1 > t {
      QueryEngine.MulLeftMonotone(t, currentPage, pageSize);
      assert false;
    }
  }
}
