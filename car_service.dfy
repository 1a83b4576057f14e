/** `CarService.getAllCars`: a listing request is translated into a
    conjunctive query (an optional search over four text paths and at most one
    condition per path), which is answered with a count of the matches and
    one page of them sorted by Brand, then Model. */
module CarService {
  import opened Wrappers
  import opened Text
  import opened Numbers
  import opened CarModel
  import opened QueryEngine

  /** One `filter` query parameter after `JSON.parse`: the parsed
      `{field, operator, value}`, or text that `JSON.parse` rejects. */
  datatype FilterItem =
    | Spec(field: string, operator: string, value: string)
    | Malformed(text: string)

  /** The `filter` query parameter: absent, given once (a string) or
      repeated (an array of strings). */
  datatype FilterParam = Absent | Single(item: FilterItem) | Repeated(items: seq<FilterItem>)

  datatype ListRequest = ListRequest(
    search: Option<string>,
    filter: FilterParam,
    page: Option<int>,
    limit: Option<int>)

  /** The error `getAllCars` rethrows: `JSON.parse` rejected a filter item. */
  datatype ListError = InvalidFilter(text: string)

  /** The listing `getAllCars` returns. */
  datatype Listing = Listing(cars: seq<Car>, total: nat, page: int, totalPages: nat)

  const DefaultPage: int := 1
  const DefaultLimit: int := 10

  /** The operators the translator recognises; any other is ignored. */
  const Operators: set<string> := {"contains", "equals", "startsWith", "endsWith", "isEmpty"}

  /** `if (filter)` and `Array.isArray(filter) ? filter : [filter]`: a single
      item is a one-element list, and an empty single string is falsy. */
  function FilterItems(f: FilterParam): (r: seq<FilterItem>)
    ensures f.Absent? ==> r == []
    ensures f.Single? ==> (r == [] <==> f.item == Malformed("")) && (r != [] ==> r == [f.item])
    ensures f.Repeated? ==> r == f.items
  {
    match f
    case Absent => []
    case Single(item) => if item == Malformed("") then [] else [item]
    case Repeated(items) => items
  }

  predicate HasMalformed(items: seq<FilterItem>) {
    exists i :: 0 <= i < |items| && items[i].Malformed?
  }

  /** The search clause: the trimmed search text, present only when the
      search is given and is not all whitespace. */
  function SearchClause(search: Option<string>): (r: Option<string>)
    ensures r.None? <==> search.None? || AllWhitespace(search.value)
    ensures r.Some? ==> r.value == Trim(search.value) && r.value != []
  {
    if search.None? then None
    else
      TrimEmptyIff(search.value);
      var t := Trim(search.value);
      if t != [] then Some(t) else None
  }

  /** The condition an operator and value stand for; None for an operator
      outside `Operators`. */
  function ConditionOf(operator: string, value: string): (r: Option<Condition>)
    ensures r.Some? <==> operator in Operators
  {
    match operator
    case "contains" => Some(Contains(value))
    case "equals" => Some(Equals(value))
    case "startsWith" => Some(StartsWith(value))
    case "endsWith" => Some(EndsWith(value))
    case "isEmpty" => Some(IsEmpty)
    case _ => None
  }

  /** What a filter `{field, operator, value}` asks of the value `v` a car
      holds at `field`, stated per operator name: `contains` an occurrence up
      to case, `equals` the exact string or a number rendered as the value,
      `startsWith` and `endsWith` an occurrence up to case at the start or at
      the end, `isEmpty` '' or no value. */
  ghost predicate OperatorHolds(operator: string, value: string, v: Value) {
    if operator == "contains" then v.Str? && exists i :: OccursAtCI(v.s, value, i)
    else if operator == "equals" then v == Str(value) || (v.Num? && IntToDecimal(v.n) == value)
    else if operator == "startsWith" then v.Str? && OccursAtCI(v.s, value, 0)
    else if operator == "endsWith" then v.Str? && OccursAtCI(v.s, value, |v.s| - |value|)
    else operator == "isEmpty" && (v == Str("") || v.Missing?)
  }

  /** Each recognised operator's condition holds of a value exactly when the
      operator's meaning does. */
  lemma OperatorMeaning(operator: string, value: string, v: Value)
    requires operator in Operators
    ensures Satisfies(v, ConditionOf(operator, value).value) <==> OperatorHolds(operator, value, v)
  {
    var c := ConditionOf(operator, value).value;
    if operator == "contains" {
      assert c == Contains(value);
      SatisfiesMeaning(v, c);
    } else if operator == "equals" {
      assert c == Equals(value);
    } else if operator == "startsWith" {
      assert c == StartsWith(value);
      SatisfiesMeaning(v, c);
    } else if operator == "endsWith" {
      assert c == EndsWith(value);
      SatisfiesMeaning(v, c);
    } else {
      assert c == IsEmpty;
    }
  }

  predicate Recognised(item: FilterItem) {
    item.Spec? && item.operator in Operators
  }

  predicate RecognisedFor(item: FilterItem, field: string) {
    Recognised(item) && item.field == field
  }

  /** The conditions the filter items leave in the query, applying the items
      in order, each recognised one overwriting its path. */
  function Merge(items: seq<FilterItem>): map<string, Condition> {
    if items == [] then map[]
    else
      var m := Merge(items[..|items| - 1]);
      var last := items[|items| - 1];
      if last.Spec? then
        match ConditionOf(last.operator, last.value)
        case Some(c) => m[last.field := c]
        case None => m
      else m
  }

  /** One step of `Merge`, seen from a single path. */
  lemma MergeStep(items: seq<FilterItem>, field: string)
    requires items != []
    ensures var init, last := Merge(items[..|items| - 1]), items[|items| - 1];
      if RecognisedFor(last, field) then
        field in Merge(items) && Merge(items)[field] == ConditionOf(last.operator, last.value).value
      else
        (field in Merge(items) <==> field in init)
        && (field in init ==> Merge(items)[field] == init[field])
  {
  }

  /** A path has a condition exactly when some recognised item names it. */
  lemma {:induction false} MergeDomain(items: seq<FilterItem>, field: string)
    ensures field in Merge(items) <==> exists i :: 0 <= i < |items| && RecognisedFor(items[i], field)
  {
    if items != [] {
      var n := |items| - 1;
      var init := items[..n];
      MergeDomain(init, field);
      MergeStep(items, field);
      if !RecognisedFor(items[n], field) {
        forall i | 0 <= i < n && RecognisedFor(items[i], field)
          ensures exists k :: 0 <= k < |init| && RecognisedFor(init[k], field)
        {
          assert init[i] == items[i];
        }
        if field in Merge(init) {
          var k :| 0 <= k < |init| && RecognisedFor(init[k], field);
          assert items[k] == init[k];
        }
      }
    }
  }

  /** Last one wins: the condition on a path is that of the last recognised
      item naming it. */
  lemma {:induction false} MergeLastWins(items: seq<FilterItem>, field: string)
    requires field in Merge(items)
    ensures exists i ::
      && 0 <= i < |items| && RecognisedFor(items[i], field)
      && Merge(items)[field] == ConditionOf(items[i].operator, items[i].value).value
      && forall j :: i < j < |items| ==> !RecognisedFor(items[j], field)
  {
    var n := |items| - 1;
    var init := items[..n];
    MergeStep(items, field);
    if !RecognisedFor(items[n], field) {
      MergeLastWins(init, field);
      var i :| 0 <= i < n && RecognisedFor(init[i], field)
        && Merge(init)[field] == ConditionOf(init[i].operator, init[i].value).value
        && forall j :: i < j < n ==> !RecognisedFor(init[j], field);
      assert items[i] == init[i];
      forall j | i < j < |items| ensures !RecognisedFor(items[j], field) {
        if j < n { assert items[j] == init[j]; }
      }
    }
  }

  /** End to end: when item `i` is the last recognised item naming `field`,
      every car the built query matches meets that item's operator on the
      value it holds at `field`; earlier items on the same path are
      overridden. */
  lemma LastFilterHolds(items: seq<FilterItem>, search: Option<string>, i: nat, c: Car)
    requires i < |items| && Recognised(items[i])
    requires forall j :: i < j < |items| ==> !RecognisedFor(items[j], items[i].field)
    requires Matches(c, Query(search, Merge(items)))
    ensures OperatorHolds(items[i].operator, items[i].value, FieldValue(c, items[i].field))
  {
    var field := items[i].field;
    MergeDomain(items, field);
    MergeLastWins(items, field);
    var k :| && 0 <= k < |items| && RecognisedFor(items[k], field)
      && Merge(items)[field] == ConditionOf(items[k].operator, items[k].value).value
      && forall j :: k < j < |items| ==> !RecognisedFor(items[j], field);
    assert k == i;
    OperatorMeaning(items[i].operator, items[i].value, FieldValue(c, field));
  }

  /** An item with an unknown operator leaves the conditions unchanged. */
  lemma MergeIgnoresUnknown(items: seq<FilterItem>, item: FilterItem)
    requires !Recognised(item) && !item.Malformed?
    ensures Merge(items + [item]) == Merge(items)
  {
    assert (items + [item])[..|items|] == items;
  }

  /** Translates the request's search and filters into a query, or fails
      with the first filter item `JSON.parse` rejects (nothing partial is
      returned). */
  method BuildQuery(search: Option<string>, filter: FilterParam) returns (r: Result<Query, ListError>)
    ensures r.Failure? <==> HasMalformed(FilterItems(filter))
    ensures r.Failure? ==>
      exists i :: 0 <= i < |FilterItems(filter)| && FilterItems(filter)[i] == Malformed(r.error.text)
        && forall j :: 0 <= j < i ==> !FilterItems(filter)[j].Malformed?
    ensures r.Success? ==> r.value == Query(SearchClause(search), Merge(FilterItems(filter)))
  {
    var items := FilterItems(filter);
    var conditions: map<string, Condition> := map[];
    var i := 0;
    while i < |items|
      invariant 0 <= i <= |items|
      invariant forall j :: 0 <= j < i ==> !items[j].Malformed?
      invariant conditions == Merge(items[..i])
    {
      assert items[..i + 1][..i] == items[..i];
      match items[i]
      case Malformed(text) =>
        return Failure(InvalidFilter(text));
      case Spec(field, operator, value) =>
        if operator == "contains" {
          conditions := conditions[field := Contains(value)];
        } else if operator == "equals" {
          conditions := conditions[field := Equals(value)];
        } else if operator == "startsWith" {
          conditions := conditions[field := StartsWith(value)];
        } else if operator == "endsWith" {
          conditions := conditions[field := EndsWith(value)];
        } else if operator == "isEmpty" {
          conditions := conditions[field := IsEmpty];
        }
      i := i + 1;
    }
    assert items[..i] == items;
    r := Success(Query(SearchClause(search), conditions));
  }

  /** `getAllCars(query)`: fails when a filter item is not JSON; otherwise
      counts every match and returns the requested page of the matches in
      Brand/Model order, with the page count for the limit. */
  method GetAllCars(cars: seq<Car>, request: ListRequest) returns (r: Result<Listing, ListError>)
    requires request.page.Some? ==> request.page.value >= 1
    requires request.limit.Some? ==> request.limit.value >= 1
    ensures r.Failure? <==> HasMalformed(FilterItems(request.filter))
    ensures r.Failure? ==>
      exists i :: 0 <= i < |FilterItems(request.filter)| && FilterItems(request.filter)[i] == Malformed(r.error.text)
        && forall j :: 0 <= j < i ==> !FilterItems(request.filter)[j].Malformed?
    ensures r.Success? ==>
      var q := Query(SearchClause(request.search), Merge(FilterItems(request.filter)));
      var page := request.page.GetOr(DefaultPage);
      var limit := request.limit.GetOr(DefaultLimit);
      var sorted := SortByBrandModel(MatchingCars(cars, q));
      && r.value.total == |MatchingCars(cars, q)|
      && r.value.page == page
      && r.value.totalPages == CeilDiv(r.value.total, limit)
      && r.value.cars == PageOf(sorted, Skip(page, limit), limit)
      && |r.value.cars| <= limit
      && SortedByKey(r.value.cars)
      && forall c :: c in r.value.cars ==> c in cars && Matches(c, q)
  {
    var built := BuildQuery(request.search, request.filter);
    if built.Failure? {
      return Failure(built.error);
    }
    var q := built.value;
    var page := request.page.GetOr(DefaultPage);
    var limit := request.limit.GetOr(DefaultLimit);
    var matching := MatchingCars(cars, q);
    var total := |matching|;
    var skip := Skip(page, limit);
    var sorted := SortByBrandModel(matching);
    var found := PageOf(sorted, skip, limit);
    PageOfSlice(sorted, skip, limit);
    forall c | c in found ensures c in cars && Matches(c, q) {
      SortedMatchesMember(cars, q, c);
    }
    r := Success(Listing(found, total, page, CeilDiv(total, limit)));
  }
}
