/** How the store answers the query `getAllCars` builds: which cars a query
    matches, the order `sort({ Brand: 1, Model: 1 })` produces, and
    `skip(n).limit(m)`. The regular expressions of the source are modelled as
    literal, case-insensitive substring, prefix and suffix tests. */
module QueryEngine {
  import opened Wrappers
  import opened Text
  import opened Numbers
  import opened CarModel

  /** The condition one recognised filter puts on its path. */
  datatype Condition =
    | Contains(text: string)      // { $regex: value, $options: 'i' }
    | Equals(value: string)       // value
    | StartsWith(prefix: string)  // { $regex: `^${value}`, $options: 'i' }
    | EndsWith(suffix: string)    // { $regex: `${value}$`, $options: 'i' }
    | IsEmpty                     // { $in: ['', null] }

  /** A query object: the `$or` search text, if any, and one condition per path,
      all of which a car must satisfy. */
  datatype Query = Query(search: Option<string>, conditions: map<string, Condition>)

  // ---------------------------------------------------------------------
  // Matching
  // ---------------------------------------------------------------------

  predicate ContainsCI(s: string, t: string) {
    Includes(Lower(s), Lower(t))
  }

  predicate StartsWithCI(s: string, t: string) {
    Lower(t) <= Lower(s)
  }

  predicate EndsWithCI(s: string, t: string) {
    |t| <= |s| && Lower(t) == Lower(s)[|s| - |t|..]
  }

  /** `t` occurs at position `i` of `s` up to case. */
  predicate OccursAtCI(s: string, t: string, i: int) {
    0 <= i <= |s| - |t| && Lower(s[i..i + |t|]) == Lower(t)
  }

  /** The case-insensitive containment test holds exactly when some block of
      `s` equals `t` up to case. */
  lemma ContainsCIIff(s: string, t: string)
    ensures ContainsCI(s, t) <==> exists i :: OccursAtCI(s, t, i)
  {
    IncludesIff(Lower(s), Lower(t));
    if ContainsCI(s, t) {
      var i :| OccursAt(Lower(s), Lower(t), i);
      assert Lower(s)[i..i + |Lower(t)|] == Lower(s[i..i + |t|]);
      assert OccursAtCI(s, t, i);
    }
    if exists i :: OccursAtCI(s, t, i) {
      var i :| OccursAtCI(s, t, i);
      assert Lower(s)[i..i + |t|] == Lower(s[i..i + |t|]);
      assert OccursAt(Lower(s), Lower(t), i);
    }
  }

  /** A prefix or suffix test is an occurrence test at the start or the end. */
  lemma {:induction false} SatisfiesMeaning(v: Value, c: Condition)
    ensures c.Contains? ==> (Satisfies(v, c) <==> v.Str? && exists i :: OccursAtCI(v.s, c.text, i))
    ensures c.StartsWith? ==> (Satisfies(v, c) <==> v.Str? && OccursAtCI(v.s, c.prefix, 0))
    ensures c.EndsWith? ==> (Satisfies(v, c) <==> v.Str? && OccursAtCI(v.s, c.suffix, |v.s| - |c.suffix|))
    ensures c.Equals? && v.Str? ==> (Satisfies(v, c) <==> v.s == c.value)
    ensures c.Equals? && v.Num? && Satisfies(v, c) ==> ParseInt(c.value) == Some(v.n)
    ensures c.Equals? && !v.Str? && !v.Num? ==> !Satisfies(v, c)
    ensures c.IsEmpty? ==> (Satisfies(v, c) <==> v == Str("") || v.Missing?)
  {
    if c.Contains? && v.Str? {
      ContainsCIIff(v.s, c.text);
    }
    if c.StartsWith? && v.Str? && |c.prefix| <= |v.s| {
      assert Lower(v.s)[..|c.prefix|] == Lower(v.s[0..|c.prefix|]);
    }
    if c.Equals? && v.Num? && Satisfies(v, c) {
      EqualsNumberParses(v.n, c.value);
    }
  }

  /** Whether a stored value satisfies a condition. Regular-expression
      conditions match only strings; `equals` compares a string exactly and a
      number by its decimal rendering; `isEmpty` matches '' or a missing path. */
  predicate Satisfies(v: Value, c: Condition) {
    match c
    case Contains(t) => v.Str? && ContainsCI(v.s, t)
    case Equals(t) => (v.Str? && v.s == t) || (v.Num? && IntToDecimal(v.n) == t)
    case StartsWith(t) => v.Str? && StartsWithCI(v.s, t)
    case EndsWith(t) => v.Str? && EndsWithCI(v.s, t)
    case IsEmpty => v == Str("") || v.Missing?
  }

  /** A number equals a filter value only when that value reads back as the number. */
  lemma EqualsNumberParses(n: int, t: string)
    requires Satisfies(Num(n), Equals(t))
    ensures ParseInt(t) == Some(n)
  {
    ParseIntDecimal(n);
  }

  /** The `$or` clause: the text occurs, up to case, in Brand, Model,
      BodyStyle or PowerTrain. */
  predicate SearchMatches(c: Car, text: string) {
    || ContainsCI(c.brand, text)
    || ContainsCI(c.model, text)
    || ContainsCI(c.bodyStyle, text)
    || ContainsCI(c.powerTrain, text)
  }

  /** The search clause is a `contains` test on exactly the paths of the
      schema's text index, any one of which may match. */
  lemma SearchOverTextIndex(c: Car, text: string)
    ensures SearchMatches(c, text) <==>
      exists f :: f in TextIndexFields && Satisfies(FieldValue(c, f), Contains(text))
  {
    assert FieldValue(c, "Brand") == Str(c.brand);
    assert FieldValue(c, "Model") == Str(c.model);
    assert FieldValue(c, "BodyStyle") == Str(c.bodyStyle);
    assert FieldValue(c, "PowerTrain") == Str(c.powerTrain);
    assert TextIndexFields[0] == "Brand" && TextIndexFields[1] == "Model";
    assert TextIndexFields[2] == "BodyStyle" && TextIndexFields[3] == "PowerTrain";
    if exists f :: f in TextIndexFields && Satisfies(FieldValue(c, f), Contains(text)) {
      var f :| f in TextIndexFields && Satisfies(FieldValue(c, f), Contains(text));
      assert f == "Brand" || f == "Model" || f == "BodyStyle" || f == "PowerTrain";
    }
  }

  /** A car matches a query when it passes the search clause, if any, and
      every path condition. */
  predicate Matches(c: Car, q: Query) {
    && (q.search.Some? ==> SearchMatches(c, q.search.value))
    && forall f :: f in q.conditions ==> Satisfies(FieldValue(c, f), q.conditions[f])
  }

  /** `find(query)` before sorting: the matching cars in store order. */
  function MatchingCars(cars: seq<Car>, q: Query): (r: seq<Car>)
    ensures forall c :: c in r <==> c in cars && Matches(c, q)
    ensures forall c :: multiset(r)[c] == if Matches(c, q) then multiset(cars)[c] else 0
    ensures multiset(r) <= multiset(cars)
  {
    if cars == [] then []
    else
      var rest := MatchingCars(cars[1..], q);
      assert cars == [cars[0]] + cars[1..];
      if Matches(cars[0], q) then [cars[0]] + rest else rest
  }

  /** The query with no search and no conditions matches every car. */
  lemma {:induction false} EmptyQueryMatchesAll(cars: seq<Car>)
    ensures MatchingCars(cars, Query(None, map[])) == cars
  {
    if cars != [] {
      EmptyQueryMatchesAll(cars[1..]);
      assert Matches(cars[0], Query(None, map[]));
    }
  }

  /** Dropping conditions from the query map keeps every match: a car that
      matches a query matches it with some of its conditions dropped. */
  lemma MatchesFewerConditions(c: Car, q: Query, fewer: map<string, Condition>)
    requires Matches(c, q)
    requires forall f :: f in fewer ==> f in q.conditions && fewer[f] == q.conditions[f]
    ensures Matches(c, Query(q.search, fewer))
  {
  }

  // ---------------------------------------------------------------------
  // Ordering
  // ---------------------------------------------------------------------

  /** Binary (code point) order on strings, MongoDB's default order for
      strings; a proper prefix comes first. */
  predicate StrLeq(a: string, b: string) {
    a == [] || (b != [] && (a[0] < b[0] || (a[0] == b[0] && StrLeq(a[1..], b[1..]))))
  }

  lemma {:induction false} StrLeqReflexive(a: string)
    ensures StrLeq(a, a)
  {
    if a != [] {
      StrLeqReflexive(a[1..]);
    }
  }

  lemma {:induction false} StrLeqTotal(a: string, b: string)
    ensures StrLeq(a, b) || StrLeq(b, a)
  {
    if a != [] && b != [] && a[0] == b[0] {
      StrLeqTotal(a[1..], b[1..]);
    }
  }

  lemma {:induction false} StrLeqAntisymmetric(a: string, b: string)
    requires StrLeq(a, b) && StrLeq(b, a)
    ensures a == b
  {
    if a != [] && b != [] {
      StrLeqAntisymmetric(a[1..], b[1..]);
      assert a == [a[0]] + a[1..] && b == [b[0]] + b[1..];
    }
  }

  lemma {:induction false} StrLeqTransitive(a: string, b: string, c: string)
    requires StrLeq(a, b) && StrLeq(b, c)
    ensures StrLeq(a, c)
  {
    if a != [] && b != [] && c != [] && a[0] == b[0] && b[0] == c[0] {
      StrLeqTransitive(a[1..], b[1..], c[1..]);
    }
  }

  /** `sort({ Brand: 1, Model: 1 })`: by Brand, then by Model. */
  predicate KeyLeq(x: Car, y: Car) {
    if x.brand != y.brand then StrLeq(x.brand, y.brand) else StrLeq(x.model, y.model)
  }

  lemma KeyLeqTotal(x: Car, y: Car)
    ensures KeyLeq(x, y) || KeyLeq(y, x)
  {
    StrLeqTotal(x.brand, y.brand);
    StrLeqTotal(x.model, y.model);
  }

  lemma KeyLeqTransitive(x: Car, y: Car, z: Car)
    requires KeyLeq(x, y) && KeyLeq(y, z)
    ensures KeyLeq(x, z)
  {
    if x.brand == y.brand && y.brand == z.brand {
      StrLeqTransitive(x.model, y.model, z.model);
    } else if x.brand != y.brand && y.brand != z.brand {
      if x.brand == z.brand {
        StrLeqAntisymmetric(x.brand, y.brand);
      }
      StrLeqTransitive(x.brand, y.brand, z.brand);
    }
  }

  predicate SortedByKey(s: seq<Car>) {
    forall i, j :: 0 <= i < j < |s| ==> KeyLeq(s[i], s[j])
  }

  lemma PrependSorted(x: Car, s: seq<Car>)
    requires SortedByKey(s)
    requires forall y :: y in s ==> KeyLeq(x, y)
    ensures SortedByKey([x] + s)
  {
    var r := [x] + s;
    forall i, j | 0 <= i < j < |r| ensures KeyLeq(r[i], r[j]) {
      if i > 0 {
        assert r[i] == s[i - 1] && r[j] == s[j - 1];
      } else {
        assert r[j] in s;
      }
    }
  }

  /** Inserts `c` into a sorted sequence, before the first car it sorts at or before. */
  function InsertByKey(c: Car, s: seq<Car>): (r: seq<Car>)
    requires SortedByKey(s)
    ensures SortedByKey(r)
    ensures multiset(r) == multiset(s) + multiset{c}
  {
    if s == [] then [c]
    else if KeyLeq(c, s[0]) then
      InsertFirst(c, s);
      [c] + s
    else
      var rest := InsertByKey(c, s[1..]);
      InsertAfterHead(c, s, rest);
      [s[0]] + rest
  }

  lemma InsertFirst(c: Car, s: seq<Car>)
    requires s != [] && SortedByKey(s) && KeyLeq(c, s[0])
    ensures SortedByKey([c] + s)
  {
    forall y | y in s ensures KeyLeq(c, y) {
      var j :| 0 <= j < |s| && s[j] == y;
      if j > 0 {
        KeyLeqTransitive(c, s[0], y);
      }
    }
    PrependSorted(c, s);
  }

  lemma InsertAfterHead(c: Car, s: seq<Car>, rest: seq<Car>)
    requires s != [] && SortedByKey(s) && !KeyLeq(c, s[0])
    requires SortedByKey(rest) && multiset(rest) == multiset(s[1..]) + multiset{c}
    ensures SortedByKey([s[0]] + rest)
    ensures multiset([s[0]] + rest) == multiset(s) + multiset{c}
  {
    KeyLeqTotal(c, s[0]);
    forall y | y in rest ensures KeyLeq(s[0], y) {
      assert y in multiset(rest);
      if y != c {
        assert y in multiset(s[1..]);
        var j :| 0 <= j < |s[1..]| && s[1..][j] == y;
        assert s[j + 1] == y;
      }
    }
    PrependSorted(s[0], rest);
    assert s == [s[0]] + s[1..];
  }

  /** The matches in Brand/Model order: a sorted rearrangement of its input.
      The contract leaves the order of cars with equal Brand and Model open,
      as the store does. */
  function SortByBrandModel(s: seq<Car>): (r: seq<Car>)
    ensures SortedByKey(r)
    ensures multiset(r) == multiset(s)
  {
    if s == [] then []
    else
      assert s == [s[0]] + s[1..];
      InsertByKey(s[0], SortByBrandModel(s[1..]))
  }

  // ---------------------------------------------------------------------
  // Paging
  // ---------------------------------------------------------------------

  /** `(page - 1) * limit`: a whole number of pages, exactly the `page - 1`
      pages before the requested one. */
  function Skip(page: int, limit: int): (r: nat)
    requires page >= 1 && limit >= 1
    ensures r % limit == 0 && r / limit + 1 == page
  {
    MulDivExact(page - 1, limit);
    (page - 1) * limit
  }

  lemma {:induction false} MulDivExact(a: nat, l: int)
    requires l >= 1
    ensures (a * l) % l == 0 && (a * l) / l == a
  {
    var x := a * l;
    var q, r := x / l, x % l;
    assert x == q * l + r && 0 <= r < l;
    assert (a - q) * l == r;
    if a - q >= 1 {
      MulLeftMonotone(1, a - q, l);
    } else if a - q <= -1 {
      MulLeftMonotone(a - q, -1, l);
    }
  }

  /** `skip(skip).limit(limit)` on a sorted result. */
  function PageOf(s: seq<Car>, skip: nat, limit: nat): (r: seq<Car>)
    ensures |r| <= limit
    ensures |r| == if skip >= |s| then 0 else if |s| - skip <= limit then |s| - skip else limit
    ensures forall k :: 0 <= k < |r| ==> r[k] == s[skip + k]
  {
    if skip >= |s| then []
    else if |s| - skip <= limit then s[skip..]
    else s[skip..skip + limit]
  }

  /** A page holds records of the result it is cut from, in the same order. */
  lemma PageOfSlice(s: seq<Car>, skip: nat, limit: nat)
    ensures forall c :: c in PageOf(s, skip, limit) ==> c in s
    ensures SortedByKey(s) ==> SortedByKey(PageOf(s, skip, limit))
  {
    var r := PageOf(s, skip, limit);
    forall c | c in r ensures c in s {
      var k :| 0 <= k < |r| && r[k] == c;
      assert c == s[skip + k];
    }
    if SortedByKey(s) {
      forall i, j | 0 <= i < j < |r| ensures KeyLeq(r[i], r[j]) {
        assert r[i] == s[skip + i] && r[j] == s[skip + j];
      }
    }
  }

  /** Sorting the matches neither adds nor loses a car. */
  lemma SortedMatchesMember(cars: seq<Car>, q: Query, c: Car)
    requires c in SortByBrandModel(MatchingCars(cars, q))
    ensures c in cars && Matches(c, q)
  {
    assert c in multiset(SortByBrandModel(MatchingCars(cars, q)));
    assert c in multiset(MatchingCars(cars, q));
  }

  lemma MulLeftMonotone(a: int, b: int, l: int)
    requires a <= b && l >= 0
    ensures a * l <= b * l
  {
  }

  /** Every record of a sorted result is on exactly the page its position
      gives, and that page is among the first `CeilDiv(|s|, limit)`. */
  lemma OnItsPage(s: seq<Car>, limit: int, i: int)
    requires limit >= 1 && 0 <= i < |s|
    ensures var page := i / limit + 1;
      && 1 <= page <= CeilDiv(|s|, limit)
      && i % limit < |PageOf(s, Skip(page, limit), limit)|
      && PageOf(s, Skip(page, limit), limit)[i % limit] == s[i]
  {
    var page := i / limit + 1;
    var pages := CeilDiv(|s|, limit);
    assert Skip(page, limit) + i % limit == i;
    if page > pages {
      MulLeftMonotone(pages, page - 1, limit);
    }
  }

  /** A page past the last one is empty. */
  lemma PastLastPage(s: seq<Car>, limit: int, page: int)
    requires limit >= 1 && page > CeilDiv(|s|, limit)
    ensures PageOf(s, Skip(page, limit), limit) == []
  {
    MulLeftMonotone(CeilDiv(|s|, limit), page - 1, limit);
  }

  /** Every page before the last one is full. */
  lemma InnerPageFull(s: seq<Car>, limit: int, page: int)
    requires limit >= 1 && 1 <= page < CeilDiv(|s|, limit)
    ensures |PageOf(s, Skip(page, limit), limit)| == limit
  {
    var pages := CeilDiv(|s|, limit);
    MulLeftMonotone(page, pages - 1, limit);
    assert Skip(page, limit) + limit == page * limit;
  }
}
