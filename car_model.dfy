/** The car schema: a record constructor applying the schema's required,
    trim and default rules, the value a stored car holds at each path, and
    the fields of the schema's text index. */
module CarModel {
  import opened Wrappers
  import opened Text

  /** A stored car. `id` stands for the store-assigned identity and `date`
      for the `Date` timestamp; both are opaque numbers here. */
  datatype Car = Car(
    id: nat,
    brand: string,
    model: string,
    accelSec: real,
    topSpeedKmH: int,
    rangeKm: int,
    efficiencyWhKm: int,
    fastChargeKmH: int,
    rapidCharge: string,
    powerTrain: string,
    plugType: string,
    bodyStyle: string,
    segment: string,
    seats: int,
    priceEuro: int,
    date: int)

  /** The fields handed to the constructor; None is a field left out. */
  datatype CarInput = CarInput(
    brand: Option<string>,
    model: Option<string>,
    accelSec: Option<real>,
    topSpeedKmH: Option<int>,
    rangeKm: Option<int>,
    efficiencyWhKm: Option<int>,
    fastChargeKmH: Option<int>,
    rapidCharge: Option<string>,
    powerTrain: Option<string>,
    plugType: Option<string>,
    bodyStyle: Option<string>,
    segment: Option<string>,
    seats: Option<int>,
    priceEuro: Option<int>,
    date: Option<int>)

  /** A failed validation lists the schema paths that failed, in schema order. */
  datatype ValidationError = ValidationError(paths: seq<string>)

  /** A required, trimmed string path passes when it is given and is not
      empty once trimmed. */
  predicate Present(v: Option<string>) {
    v.Some? && Trim(v.value) != []
  }

  /** What every stored car satisfies: Brand and Model are non-empty and have
      no whitespace at either end (so each is its own trim, by `TrimOfTrimmed`). */
  predicate Valid(c: Car) {
    && c.brand != [] && !IsWhitespace(c.brand[0]) && !IsWhitespace(c.brand[|c.brand| - 1])
    && c.model != [] && !IsWhitespace(c.model[0]) && !IsWhitespace(c.model[|c.model| - 1])
  }

  /** `new Car(input)` followed by validation: Brand and Model are trimmed and
      required, every other field takes its default when left out (0 for the
      numbers, '' for the texts, `now` for Date). */
  function NewCar(input: CarInput, id: nat, now: int): (r: Result<Car, ValidationError>)
    ensures r.Success? <==> Present(input.brand) && Present(input.model)
    ensures r.Failure? ==>
      && ("Brand" in r.error.paths <==> !Present(input.brand))
      && ("Model" in r.error.paths <==> !Present(input.model))
      && (forall p :: p in r.error.paths ==> p == "Brand" || p == "Model")
    ensures r.Success? ==> Valid(r.value) && r.value.id == id
    ensures r.Success? ==>
      && r.value.brand == Trim(input.brand.value)
      && r.value.model == Trim(input.model.value)
  {
    if Present(input.brand) && Present(input.model) then
      Success(WithDefaults(input, id, now))
    else
      Failure(ValidationError(FailedPaths(input)))
  }

  /** The required paths that fail validation, in schema order. */
  function FailedPaths(input: CarInput): (paths: seq<string>)
    ensures "Brand" in paths <==> !Present(input.brand)
    ensures "Model" in paths <==> !Present(input.model)
    ensures forall p :: p in paths ==> p == "Brand" || p == "Model"
    ensures forall i, j :: 0 <= i < j < |paths| ==> paths[i] != paths[j]
  {
    (if Present(input.brand) then [] else ["Brand"]) + (if Present(input.model) then [] else ["Model"])
  }

  /** The document the constructor builds: Brand and Model trimmed, every
      other field given or defaulted. */
  function WithDefaults(input: CarInput, id: nat, now: int): Car
    requires input.brand.Some? && input.model.Some?
  {
    Car(
      id,
      Trim(input.brand.value),
      Trim(input.model.value),
      input.accelSec.GetOr(0.0),
      input.topSpeedKmH.GetOr(0),
      input.rangeKm.GetOr(0),
      input.efficiencyWhKm.GetOr(0),
      input.fastChargeKmH.GetOr(0),
      input.rapidCharge.GetOr(""),
      input.powerTrain.GetOr(""),
      input.plugType.GetOr(""),
      input.bodyStyle.GetOr(""),
      input.segment.GetOr(""),
      input.seats.GetOr(0),
      input.priceEuro.GetOr(0),
      input.date.GetOr(now))
  }

  /** Every field left out takes its schema default: 0 for the numbers, ''
      for the texts, `now` for Date. */
  lemma NewCarDefaults(input: CarInput, id: nat, now: int)
    requires Present(input.brand) && Present(input.model)
    ensures var r := NewCar(input, id, now);
      && (input.accelSec.None? ==> r.value.accelSec == 0.0)
      && (input.topSpeedKmH.None? ==> r.value.topSpeedKmH == 0)
      && (input.rangeKm.None? ==> r.value.rangeKm == 0)
      && (input.efficiencyWhKm.None? ==> r.value.efficiencyWhKm == 0)
      && (input.fastChargeKmH.None? ==> r.value.fastChargeKmH == 0)
      && (input.seats.None? ==> r.value.seats == 0)
      && (input.priceEuro.None? ==> r.value.priceEuro == 0)
      && (input.rapidCharge.None? ==> r.value.rapidCharge == "")
      && (input.powerTrain.None? ==> r.value.powerTrain == "")
      && (input.plugType.None? ==> r.value.plugType == "")
      && (input.bodyStyle.None? ==> r.value.bodyStyle == "")
      && (input.segment.None? ==> r.value.segment == "")
      && (input.date.None? ==> r.value.date == now)
  {
  }

  /** Every field given other than Brand and Model is stored as given. */
  lemma NewCarKeepsGiven(input: CarInput, id: nat, now: int)
    requires Present(input.brand) && Present(input.model)
    ensures var r := NewCar(input, id, now);
      && (input.accelSec.Some? ==> r.value.accelSec == input.accelSec.value)
      && (input.topSpeedKmH.Some? ==> r.value.topSpeedKmH == input.topSpeedKmH.value)
      && (input.rangeKm.Some? ==> r.value.rangeKm == input.rangeKm.value)
      && (input.efficiencyWhKm.Some? ==> r.value.efficiencyWhKm == input.efficiencyWhKm.value)
      && (input.fastChargeKmH.Some? ==> r.value.fastChargeKmH == input.fastChargeKmH.value)
      && (input.seats.Some? ==> r.value.seats == input.seats.value)
      && (input.priceEuro.Some? ==> r.value.priceEuro == input.priceEuro.value)
      && (input.rapidCharge.Some? ==> r.value.rapidCharge == input.rapidCharge.value)
      && (input.powerTrain.Some? ==> r.value.powerTrain == input.powerTrain.value)
      && (input.plugType.Some? ==> r.value.plugType == input.plugType.value)
      && (input.bodyStyle.Some? ==> r.value.bodyStyle == input.bodyStyle.value)
      && (input.segment.Some? ==> r.value.segment == input.segment.value)
      && (input.date.Some? ==> r.value.date == input.date.value)
  {
  }

  /** The value a stored car holds at a path, as the query engine sees it. */
  datatype Value =
    | Str(s: string)  // a String path
    | Num(n: int)     // an integer Number path, or the version key
    | Other           // present but neither: AccelSec, Date, _id, the timestamps
    | Missing         // a path the document does not have

  /** The schema's String paths. */
  const StringPaths: set<string> :=
    {"Brand", "Model", "RapidCharge", "PowerTrain", "PlugType", "BodyStyle", "Segment"}

  /** The schema's Number paths that hold integers. */
  const IntegerPaths: set<string> :=
    {"TopSpeed_KmH", "Range_Km", "Efficiency_WhKm", "FastCharge_KmH", "Seats", "PriceEuro"}

  /** The version key the store adds to every document it saves; the schema
      leaves versioning on and no modelled operation changes the version. */
  const VersionKey: string := "__v"

  /** The other paths every document has: AccelSec, Date, the identity and the
      timestamps. */
  const OtherPaths: set<string> := {"AccelSec", "Date", "_id", "createdAt", "updatedAt"}

  /** The value a document holds at a path. */
  function FieldValue(c: Car, path: string): Value {
    match path
    case "Brand" => Str(c.brand)
    case "Model" => Str(c.model)
    case "RapidCharge" => Str(c.rapidCharge)
    case "PowerTrain" => Str(c.powerTrain)
    case "PlugType" => Str(c.plugType)
    case "BodyStyle" => Str(c.bodyStyle)
    case "Segment" => Str(c.segment)
    case "TopSpeed_KmH" => Num(c.topSpeedKmH)
    case "Range_Km" => Num(c.rangeKm)
    case "Efficiency_WhKm" => Num(c.efficiencyWhKm)
    case "FastCharge_KmH" => Num(c.fastChargeKmH)
    case "Seats" => Num(c.seats)
    case "PriceEuro" => Num(c.priceEuro)
    case "AccelSec" => Other
    case "Date" => Other
    case "_id" => Other
    case "createdAt" => Other
    case "updatedAt" => Other
    case "__v" => Num(0)
    case _ => Missing
  }

  /** A document holds a string at each String path, an integer at each
      integer Number path, version 0 at the version key, and nothing at any
      other path. */
  lemma FieldValueKinds(c: Car, path: string)
    ensures FieldValue(c, path).Str? <==> path in StringPaths
    ensures FieldValue(c, path).Num? <==> path in IntegerPaths || path == VersionKey
    ensures path == VersionKey ==> FieldValue(c, path) == Num(0)
    ensures FieldValue(c, path).Other? <==> path in OtherPaths
    ensures FieldValue(c, path).Missing? <==> path !in StringPaths + IntegerPaths + OtherPaths + {VersionKey}
  {
  }

  /** The path table agrees with the constructor on the String paths: a new
      car holds the trimmed Brand and Model, and each other text as given or
      ''. */
  lemma FieldValueOfNewCarText(input: CarInput, id: nat, now: int)
    requires Present(input.brand) && Present(input.model)
    ensures var c := NewCar(input, id, now).value;
      && FieldValue(c, "Brand") == Str(Trim(input.brand.value))
      && FieldValue(c, "Model") == Str(Trim(input.model.value))
      && FieldValue(c, "RapidCharge") == Str(input.rapidCharge.GetOr(""))
      && FieldValue(c, "PowerTrain") == Str(input.powerTrain.GetOr(""))
      && FieldValue(c, "PlugType") == Str(input.plugType.GetOr(""))
      && FieldValue(c, "BodyStyle") == Str(input.bodyStyle.GetOr(""))
      && FieldValue(c, "Segment") == Str(input.segment.GetOr(""))
  {
    assert NewCar(input, id, now).value == WithDefaults(input, id, now);
  }

  /** The path table agrees with the constructor on the integer paths: a new
      car holds each number as given or 0, and version 0. */
  lemma FieldValueOfNewCarNumbers(input: CarInput, id: nat, now: int)
    requires Present(input.brand) && Present(input.model)
    ensures var c := NewCar(input, id, now).value;
      && FieldValue(c, "TopSpeed_KmH") == Num(input.topSpeedKmH.GetOr(0))
      && FieldValue(c, "Range_Km") == Num(input.rangeKm.GetOr(0))
      && FieldValue(c, "Efficiency_WhKm") == Num(input.efficiencyWhKm.GetOr(0))
      && FieldValue(c, "FastCharge_KmH") == Num(input.fastChargeKmH.GetOr(0))
      && FieldValue(c, "Seats") == Num(input.seats.GetOr(0))
      && FieldValue(c, "PriceEuro") == Num(input.priceEuro.GetOr(0))
      && FieldValue(c, VersionKey) == Num(0)
  {
    assert NewCar(input, id, now).value == WithDefaults(input, id, now);
  }

  /** The paths of the schema's combined text index. */
  const TextIndexFields: seq<string> := ["Brand", "Model", "BodyStyle", "PowerTrain"]
}
