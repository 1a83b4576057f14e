/** The cars collection as the services and the import script use it: an
    in-memory sequence of records in insertion order, whose identities come
    from a counter and are never reused. */
module Store {
  import opened Wrappers
  import opened CarModel

  /** The record with identity `id`, if there is one. */
  function Lookup(records: seq<Car>, id: nat): (r: Option<Car>)
    ensures r.Some? ==> r.value in records && r.value.id == id
    ensures r.None? <==> forall i :: 0 <= i < |records| ==> records[i].id != id
  {
    if records == [] then None
    else if records[0].id == id then Some(records[0])
    else Lookup(records[1..], id)
  }

  /** `records` without the records whose identity is `id`, in the same order. */
  function RemoveId(records: seq<Car>, id: nat): (r: seq<Car>)
    ensures forall c :: c in r <==> c in records && c.id != id
    ensures |r| <= |records|
  {
    if records == [] then []
    else if records[0].id == id then RemoveId(records[1..], id)
    else [records[0]] + RemoveId(records[1..], id)
  }

  /** Removal keeps the order of the records it keeps: it distributes over
      concatenation, so each record stays before the ones that followed it. */
  lemma {:induction false} RemoveIdAppend(a: seq<Car>, b: seq<Car>, id: nat)
    ensures RemoveId(a + b, id) == RemoveId(a, id) + RemoveId(b, id)
  {
    if a == [] {
      assert a + b == b;
    } else {
      assert (a + b)[0] == a[0];
      assert (a + b)[1..] == a[1..] + b;
      RemoveIdAppend(a[1..], b, id);
    }
  }

  predicate UniqueIds(records: seq<Car>) {
    forall i, j :: 0 <= i < j < |records| ==> records[i].id != records[j].id
  }

  /** With unique identities, removing a present identity drops exactly one
      record and removing an absent one changes nothing. */
  lemma {:induction false} RemoveIdCount(records: seq<Car>, id: nat)
    requires UniqueIds(records)
    ensures Lookup(records, id).None? ==> RemoveId(records, id) == records
    ensures Lookup(records, id).Some? ==> |RemoveId(records, id)| == |records| - 1
  {
    if records != [] {
      var rest := records[1..];
      assert UniqueIds(rest);
      RemoveIdCount(rest, id);
      if records[0].id == id {
        assert Lookup(rest, id).None?;
      }
    }
  }

  /** Removing records keeps identities unique. */
  lemma {:induction false} RemoveIdUnique(records: seq<Car>, id: nat)
    requires UniqueIds(records)
    ensures UniqueIds(RemoveId(records, id))
  {
    if records != [] {
      var rest := records[1..];
      assert UniqueIds(rest);
      RemoveIdUnique(rest, id);
      if records[0].id != id {
        var r := RemoveId(records, id);
        forall j | 0 < j < |r| ensures r[0].id != r[j].id {
          assert r[j] in rest;
        }
      }
    }
  }

  /** The store invariant: identities unique and below the counter, and every
      record one that passed validation. */
  predicate Consistent(records: seq<Car>, nextId: nat) {
    && UniqueIds(records)
    && forall i :: 0 <= i < |records| ==> records[i].id < nextId && CarModel.Valid(records[i])
  }

  lemma AppendConsistent(records: seq<Car>, nextId: nat, c: Car)
    requires Consistent(records, nextId)
    requires c.id == nextId && CarModel.Valid(c)
    ensures Consistent(records + [c], nextId + 1)
  {
    var r := records + [c];
    forall i | 0 <= i < |r| ensures r[i].id < nextId + 1 && CarModel.Valid(r[i]) {
      if i < |records| { assert r[i] == records[i]; }
    }
  }

  lemma RemoveConsistent(records: seq<Car>, nextId: nat, id: nat)
    requires Consistent(records, nextId)
    ensures Consistent(RemoveId(records, id), nextId)
  {
    RemoveIdUnique(records, id);
    var rest := RemoveId(records, id);
    forall i | 0 <= i < |rest| ensures rest[i].id < nextId && CarModel.Valid(rest[i]) {
      assert rest[i] in records;
    }
  }

  class CarStore {
    var records: seq<Car>
    var nextId: nat

    ghost predicate Valid()
      reads this
    {
      Consistent(records, nextId)
    }

    constructor ()
      ensures Valid() && records == [] && nextId == 0
    {
      records := [];
      nextId := 0;
    }

    /** `Car.deleteMany({})`: every record goes; identities are still not reused. */
    method DeleteMany()
      requires Valid()
      modifies this
      ensures Valid() && records == [] && nextId == old(nextId)
    {
      records := [];
    }

    /** `new Car(input).save()`: a record that passes validation is appended
        under a fresh identity; one that fails leaves the store as it was. */
    method Save(input: CarInput, now: int) returns (r: Result<Car, ValidationError>)
      requires Valid()
      modifies this
      ensures Valid()
      ensures r == NewCar(input, old(nextId), now)
      ensures r.Success? ==> records == old(records) + [r.value] && nextId == old(nextId) + 1
      ensures r.Failure? ==> records == old(records) && nextId == old(nextId)
    {
      r := NewCar(input, nextId, now);
      if r.Success? {
        AppendConsistent(records, nextId, r.value);
        records := records + [r.value];
        nextId := nextId + 1;
      }
    }

    /** `Car.findById(id)` (`getCarById`): the record with that identity, or none. */
    function FindById(id: nat): (r: Option<Car>)
      reads this
      ensures r.Some? ==> r.value in records && r.value.id == id
      ensures r.None? <==> forall c :: c in records ==> c.id != id
    {
      Lookup(records, id)
    }

    /** `Car.findByIdAndDelete(id)` (`deleteCar`): removes the record with that
        identity and returns it, or returns none and changes nothing. */
    method FindByIdAndDelete(id: nat) returns (r: Option<Car>)
      requires Valid()
      modifies this
      ensures Valid() && nextId == old(nextId)
      ensures r == Lookup(old(records), id)
      ensures records == RemoveId(old(records), id)
      ensures r.Some? ==> r.value !in records && |records| == |old(records)| - 1
      ensures r.None? ==> records == old(records)
    {
      r := Lookup(records, id);
      RemoveIdCount(records, id);
      RemoveConsistent(records, nextId, id);
      records := RemoveId(records, id);
    }
  }
}
