/**
 * The preprocessing of the vehicle listings table done by `load_data`:
 * three group-wise imputations, two placeholder fills and the final type
 * coercions. A table is a sequence of rows; the row datatype fixes the
 * columns, so no stage can add, drop or reorder a column.
 */
module Vehicles {
  import opened Wrappers
  import opened Statistics
  import opened Rounding
  import opened GroupBy

  /** A cell of a column the pipeline never touches (price, condition, fuel, days_listed, ...). */
  datatype Cell = Number(x: real) | Text(s: string) | Blank

  /**
   * A listing as read from the CSV file. The numeric target columns are
   * float columns there (NaN marks a missing cell), so they are `real`.
   */
  datatype RawVehicle = RawVehicle(
    model: string,
    modelYear: Option<real>,
    cylinders: Option<real>,
    odometer: Option<real>,
    paintColor: Option<string>,
    is4wd: Option<real>,
    rest: seq<Cell>)

  type RawTable = seq<RawVehicle>

  /** A listing after the coercions: nullable integers and a strict boolean. */
  datatype Vehicle = Vehicle(
    model: string,
    modelYear: Option<int>,
    cylinders: Option<int>,
    odometer: Option<real>,
    paintColor: Option<string>,
    is4wd: bool,
    rest: seq<Cell>)

  /** The placeholder for an unknown paint colour. */
  const UnknownColor: string := "desconocido"

  /** The placeholder meaning "not four-wheel drive". */
  const NotFourWheelDrive: real := 0.0

  // Columns of a table, as pandas Series.

  function ModelKeys(t: RawTable): (ks: seq<Option<string>>)
    ensures |ks| == |t|
  {
    seq(|t|, i requires 0 <= i < |t| => Some(t[i].model))
  }

  function Years(t: RawTable): (col: seq<Option<real>>)
    ensures |col| == |t|
  {
    seq(|t|, i requires 0 <= i < |t| => t[i].modelYear)
  }

  function Cylinders(t: RawTable): (col: seq<Option<real>>)
    ensures |col| == |t|
  {
    seq(|t|, i requires 0 <= i < |t| => t[i].cylinders)
  }

  function Odometers(t: RawTable): (col: seq<Option<real>>)
    ensures |col| == |t|
  {
    seq(|t|, i requires 0 <= i < |t| => t[i].odometer)
  }

  // Partitions: the present values a fill lambda aggregates.

  /** The present model years of the rows of model `m`. */
  function YearsOfModel(t: RawTable, m: string): seq<real> {
    GroupPresent(ModelKeys(t), Years(t), m)
  }

  /** The present cylinder counts of the rows of model `m`. */
  function CylindersOfModel(t: RawTable, m: string): seq<real> {
    GroupPresent(ModelKeys(t), Cylinders(t), m)
  }

  /** The present odometer readings of the rows whose model year is `y`. */
  function OdometersOfYear(t: RawTable, y: real): seq<real> {
    GroupPresent(Years(t), Odometers(t), y)
  }

  // Assigning a whole column back (`data[col] = ...`).

  function WithYears(t: RawTable, col: seq<Option<real>>): (r: RawTable)
    requires |col| == |t|
    ensures |r| == |t|
  {
    seq(|t|, i requires 0 <= i < |t| => t[i].(modelYear := col[i]))
  }

  function WithCylinders(t: RawTable, col: seq<Option<real>>): (r: RawTable)
    requires |col| == |t|
    ensures |r| == |t|
  {
    seq(|t|, i requires 0 <= i < |t| => t[i].(cylinders := col[i]))
  }

  function WithOdometers(t: RawTable, col: seq<Option<real>>): (r: RawTable)
    requires |col| == |t|
    ensures |r| == |t|
  {
    seq(|t|, i requires 0 <= i < |t| => t[i].(odometer := col[i]))
  }

  /**
   * Step 1: a missing model year becomes the median of the present years of
   * the same model; present years, and every other column, are kept.
   */
  function ImputeModelYear(t: RawTable): (r: RawTable)
    ensures |r| == |t|
    ensures forall i :: 0 <= i < |t| ==> r[i] == t[i].(modelYear := r[i].modelYear)
    ensures forall i :: 0 <= i < |t| && t[i].modelYear.Some? ==> r[i].modelYear == t[i].modelYear
    ensures forall i :: 0 <= i < |t| && t[i].modelYear.None? ==>
      r[i].modelYear == Median(YearsOfModel(t, t[i].model))
  {
    var col := FillByGroup(ModelKeys(t), Years(t), MedianOf);
    assert forall i :: 0 <= i < |t| ==> ModelKeys(t)[i] == Some(t[i].model) && Years(t)[i] == t[i].modelYear;
    WithYears(t, col)
  }

  /**
   * Step 2: a missing cylinder count becomes the first mode (the smallest of
   * the most frequent values) of the present counts of the same model. The
   * median fallback never applies: the mode is empty only when the model has
   * no present count, and then there is no median either.
   */
  function ImputeCylinders(t: RawTable): (r: RawTable)
    ensures |r| == |t|
    ensures forall i :: 0 <= i < |t| ==> r[i] == t[i].(cylinders := r[i].cylinders)
    ensures forall i :: 0 <= i < |t| && t[i].cylinders.Some? ==> r[i].cylinders == t[i].cylinders
    ensures forall i :: 0 <= i < |t| && t[i].cylinders.None? ==>
      r[i].cylinders == Mode(CylindersOfModel(t, t[i].model))
  {
    var col := FillByGroup(ModelKeys(t), Cylinders(t), FirstModeElseMedian);
    assert forall i :: 0 <= i < |t| ==> ModelKeys(t)[i] == Some(t[i].model) && Cylinders(t)[i] == t[i].cylinders;
    WithCylinders(t, col)
  }

  /**
   * Step 3: a missing odometer reading becomes the mean of the present
   * readings of the rows with the same model year, as that column stands
   * when this step runs. A row without a model year keeps its reading.
   */
  function ImputeOdometer(t: RawTable): (r: RawTable)
    ensures |r| == |t|
    ensures forall i :: 0 <= i < |t| ==> r[i] == t[i].(odometer := r[i].odometer)
    ensures forall i :: 0 <= i < |t| && (t[i].odometer.Some? || t[i].modelYear.None?) ==>
      r[i].odometer == t[i].odometer
    ensures forall i :: 0 <= i < |t| && t[i].odometer.None? && t[i].modelYear.Some? ==>
      r[i].odometer == Mean(OdometersOfYear(t, t[i].modelYear.value))
  {
    var col := FillByGroup(Years(t), Odometers(t), MeanOf);
    assert forall i :: 0 <= i < |t| ==> Years(t)[i] == t[i].modelYear && Odometers(t)[i] == t[i].odometer;
    WithOdometers(t, col)
  }

  /** Step 4: placeholders for a missing paint colour and a missing 4WD flag. */
  function FillPlaceholders(t: RawTable): (r: RawTable)
    ensures |r| == |t|
    ensures forall i :: 0 <= i < |t| ==>
      r[i] == t[i].(paintColor := r[i].paintColor, is4wd := r[i].is4wd)
    ensures forall i :: 0 <= i < |t| ==> r[i].paintColor.Some? && r[i].is4wd.Some?
    ensures forall i :: 0 <= i < |t| && t[i].paintColor.Some? ==> r[i].paintColor == t[i].paintColor
    ensures forall i :: 0 <= i < |t| && t[i].paintColor.None? ==> r[i].paintColor == Some(UnknownColor)
    ensures forall i :: 0 <= i < |t| && t[i].is4wd.Some? ==> r[i].is4wd == t[i].is4wd
    ensures forall i :: 0 <= i < |t| && t[i].is4wd.None? ==> r[i].is4wd == Some(NotFourWheelDrive)
  {
    seq(|t|, i requires 0 <= i < |t| =>
      t[i].(paintColor := Some(t[i].paintColor.GetOr(UnknownColor)),
            is4wd := Some(t[i].is4wd.GetOr(NotFourWheelDrive))))
  }

  /** `.round(0).astype('Int64')` on one cell: NaN becomes NA, never 0. */
  function RoundCell(c: Option<real>): (r: Option<int>)
    ensures r.Some? <==> c.Some?
    ensures c.Some? ==> IsRoundedHalfEven(c.value, r.value)
  {
    match c
    case None => None
    case Some(x) => Some(RoundHalfEven(x))
  }

  /** `.astype(bool)` on one cell: zero is false; anything else, NaN included, is true. */
  function Truthy(c: Option<real>): (b: bool)
    ensures b <==> c != Some(0.0)
  {
    match c
    case None => true
    case Some(x) => x != 0.0
  }

  /**
   * Step 5: model year and cylinders rounded half-to-even into nullable
   * integers (a missing cell stays missing), the 4WD flag cast to boolean.
   */
  function CoerceTypes(t: RawTable): (r: seq<Vehicle>)
    ensures |r| == |t|
    ensures forall i :: 0 <= i < |t| ==>
      && r[i].model == t[i].model && r[i].odometer == t[i].odometer
      && r[i].paintColor == t[i].paintColor && r[i].rest == t[i].rest
    ensures forall i :: 0 <= i < |t| ==>
      && (r[i].modelYear.Some? <==> t[i].modelYear.Some?)
      && (t[i].modelYear.Some? ==> IsRoundedHalfEven(t[i].modelYear.value, r[i].modelYear.value))
    ensures forall i :: 0 <= i < |t| ==>
      && (r[i].cylinders.Some? <==> t[i].cylinders.Some?)
      && (t[i].cylinders.Some? ==> IsRoundedHalfEven(t[i].cylinders.value, r[i].cylinders.value))
    ensures forall i :: 0 <= i < |t| ==> (r[i].is4wd <==> t[i].is4wd != Some(0.0))
  {
    seq(|t|, i requires 0 <= i < |t| =>
      Vehicle(t[i].model, RoundCell(t[i].modelYear), RoundCell(t[i].cylinders), t[i].odometer,
              t[i].paintColor, Truthy(t[i].is4wd), t[i].rest))
  }

  /** Steps 1 to 4 in the order the source runs them. */
  function FillStages(t: RawTable): (r: RawTable)
    ensures |r| == |t|
  {
    FillPlaceholders(ImputeOdometer(ImputeCylinders(ImputeModelYear(t))))
  }

  // The columns a step does not write come through it unchanged.

  lemma ImputeModelYearFrame(t: RawTable)
    ensures ModelKeys(ImputeModelYear(t)) == ModelKeys(t)
    ensures Cylinders(ImputeModelYear(t)) == Cylinders(t)
    ensures Odometers(ImputeModelYear(t)) == Odometers(t)
  {
  }

  lemma ImputeCylindersFrame(t: RawTable)
    ensures ModelKeys(ImputeCylinders(t)) == ModelKeys(t)
    ensures Years(ImputeCylinders(t)) == Years(t)
    ensures Odometers(ImputeCylinders(t)) == Odometers(t)
  {
  }

  // A step whose column is already in filled form changes nothing.

  lemma ImputeModelYearFixed(u: RawTable)
    requires FillByGroup(ModelKeys(u), Years(u), MedianOf) == Years(u)
    ensures ImputeModelYear(u) == u
  {
  }

  lemma ImputeCylindersFixed(u: RawTable)
    requires FillByGroup(ModelKeys(u), Cylinders(u), FirstModeElseMedian) == Cylinders(u)
    ensures ImputeCylinders(u) == u
  {
  }

  lemma ImputeOdometerFixed(u: RawTable)
    requires FillByGroup(Years(u), Odometers(u), MeanOf) == Odometers(u)
    ensures ImputeOdometer(u) == u
  {
  }

  /** No target cell of `t` is missing. */
  predicate Complete(t: RawTable) {
    forall i :: 0 <= i < |t| ==>
      && t[i].modelYear.Some? && t[i].cylinders.Some? && t[i].odometer.Some?
      && t[i].paintColor.Some? && t[i].is4wd.Some?
  }

  /** Steps 1 to 4 leave a table without missing target cells exactly as it is. */
  lemma FillStagesOnComplete(t: RawTable)
    requires Complete(t)
    ensures FillStages(t) == t
  {
    FillNoMissing(ModelKeys(t), Years(t), MedianOf);
    ImputeModelYearFixed(t);
    FillNoMissing(ModelKeys(t), Cylinders(t), FirstModeElseMedian);
    ImputeCylindersFixed(t);
    FillNoMissing(Years(t), Odometers(t), MeanOf);
    ImputeOdometerFixed(t);
    assert FillPlaceholders(t) == t;
  }

  /**
   * Steps 1 to 4 are idempotent: run again on their own output they change
   * nothing, even where a cell stayed missing because its partition had no
   * present value.
   */
  lemma FillStagesIdempotent(t: RawTable)
    ensures FillStages(FillStages(t)) == FillStages(t)
  {
    var years := ImputeModelYear(t);
    var cyl := ImputeCylinders(years);
    var odo := ImputeOdometer(cyl);
    var u := FillPlaceholders(odo);
    assert u == FillStages(t);

    assert ModelKeys(u) == ModelKeys(cyl) == ModelKeys(years) == ModelKeys(t);
    assert Years(u) == Years(cyl) == Years(years) == FillByGroup(ModelKeys(t), Years(t), MedianOf);
    FillIdempotent(ModelKeys(t), Years(t), MedianOf);
    ImputeModelYearFixed(u);

    assert Cylinders(u) == Cylinders(cyl) == FillByGroup(ModelKeys(years), Cylinders(years), FirstModeElseMedian);
    FillIdempotent(ModelKeys(years), Cylinders(years), FirstModeElseMedian);
    ImputeCylindersFixed(u);

    assert Odometers(u) == Odometers(odo) == FillByGroup(Years(cyl), Odometers(cyl), MeanOf);
    FillIdempotent(Years(cyl), Odometers(cyl), MeanOf);
    ImputeOdometerFixed(u);

    assert FillPlaceholders(u) == u;
  }

  /**
   * Two listings of one model: the first lacks year and reading, the second
   * has year `y` and reading `d` (for instance year 2016 and reading 30000).
   */
  predicate YearAndReadingFromSibling(a: RawVehicle, b: RawVehicle, y: real, d: real) {
    && a.model == b.model
    && a.modelYear == None && a.odometer == None
    && b.modelYear == Some(y) && b.odometer == Some(d)
  }

  /** Step 1 gives the first listing the only year present for its model. */
  lemma SiblingYearImputed(a: RawVehicle, b: RawVehicle, y: real, d: real)
    requires YearAndReadingFromSibling(a, b, y, d)
    ensures ImputeModelYear([a, b])[0].modelYear == Some(y)
    ensures ImputeModelYear([a, b])[1].modelYear == Some(y)
  {
    var raw := [a, b];
    var keys, yrs := ModelKeys(raw), Years(raw);
    assert keys == [Some(a.model), Some(a.model)] && yrs == [None, Some(y)];
    assert GroupPresent(keys[1..], yrs[1..], a.model) == [y] by {
      assert keys[1..][1..] == [];
    }
    assert YearsOfModel(raw, a.model) == [y];
    MedianOfConstant([y], y);
  }

  /** After step 2 both listings carry year `y`; only the second has a reading. */
  lemma SiblingBeforeOdometer(a: RawVehicle, b: RawVehicle, y: real, d: real)
    requires YearAndReadingFromSibling(a, b, y, d)
    ensures Years(ImputeCylinders(ImputeModelYear([a, b]))) == [Some(y), Some(y)]
    ensures Odometers(ImputeCylinders(ImputeModelYear([a, b]))) == [None, Some(d)]
  {
    SiblingYearImputed(a, b, y, d);
    var years := ImputeModelYear([a, b]);
    ImputeModelYearFrame([a, b]);
    ImputeCylindersFrame(years);
    assert Years(years) == [Some(y), Some(y)];
    assert Odometers([a, b]) == [None, Some(d)];
  }

  /**
   * Step 3 groups on step 1's output: the first listing receives year `y`
   * from step 1 and then, in the partition of year `y`, the mean reading `d`.
   */
  lemma OdometerGroupsOnImputedYear(a: RawVehicle, b: RawVehicle, y: real, d: real)
    requires YearAndReadingFromSibling(a, b, y, d)
    ensures FillStages([a, b])[0].modelYear == Some(y)
    ensures FillStages([a, b])[0].odometer == Some(d)
  {
    SiblingYearImputed(a, b, y, d);
    SiblingBeforeOdometer(a, b, y, d);
    var years := ImputeModelYear([a, b]);
    var cyl := ImputeCylinders(years);
    var odo := ImputeOdometer(cyl);
    var ys, odos := Years(cyl), Odometers(cyl);
    assert GroupPresent(ys[1..], odos[1..], y) == [d] by {
      assert ys[1..][1..] == [];
    }
    assert OdometersOfYear(cyl, y) == [d];
    MeanOfConstant([d], d);
    assert cyl[0].modelYear == Some(y) && cyl[0].odometer == None;
    assert odo[0].odometer == Some(d);
    assert odo[0].modelYear == cyl[0].modelYear;
  }

  /**
   * The same listings with step 3 run on the raw year column: the first
   * listing has no year, belongs to no partition, and keeps no reading.
   */
  lemma OdometerOnRawYearStaysMissing(a: RawVehicle, b: RawVehicle, y: real, d: real)
    requires YearAndReadingFromSibling(a, b, y, d)
    ensures ImputeOdometer([a, b])[0].odometer == None
  {
    assert [a, b][0] == a;
  }

  // What the whole pipeline does to row `i`, column by column.

  /** The model and the untouched columns come through unchanged. */
  lemma NormalizedKeepsOtherColumns(raw: RawTable, i: nat)
    requires i < |raw|
    ensures CoerceTypes(FillStages(raw))[i].model == raw[i].model
    ensures CoerceTypes(FillStages(raw))[i].rest == raw[i].rest
  {
    var years := ImputeModelYear(raw);
    var cyl := ImputeCylinders(years);
    var odo := ImputeOdometer(cyl);
    assert FillPlaceholders(odo)[i].rest == odo[i].rest == cyl[i].rest == years[i].rest;
    assert FillPlaceholders(odo)[i].model == odo[i].model == cyl[i].model == years[i].model;
  }

  /**
   * A present model year is kept (rounded); a row ends with a model year
   * exactly when some row of its model had one.
   */
  lemma NormalizedModelYear(raw: RawTable, i: nat)
    requires i < |raw|
    ensures raw[i].modelYear.Some? ==>
      CoerceTypes(FillStages(raw))[i].modelYear == Some(RoundHalfEven(raw[i].modelYear.value))
    ensures raw[i].modelYear.None? ==>
      CoerceTypes(FillStages(raw))[i].modelYear == RoundCell(Median(YearsOfModel(raw, raw[i].model)))
    ensures CoerceTypes(FillStages(raw))[i].modelYear.Some? <==>
      exists j :: 0 <= j < |raw| && raw[j].model == raw[i].model && raw[j].modelYear.Some?
  {
    var years := ImputeModelYear(raw);
    var cyl := ImputeCylinders(years);
    var odo := ImputeOdometer(cyl);
    var filled := FillPlaceholders(odo);
    assert filled[i].modelYear == odo[i].modelYear == cyl[i].modelYear == years[i].modelYear;
    FillCompletes(ModelKeys(raw), Years(raw), MedianOf, i);
    var v := CoerceTypes(filled)[i];
    if raw[i].modelYear.Some? {
      RoundHalfEvenUnique(raw[i].modelYear.value, v.modelYear.value);
    } else {
      var m := Median(YearsOfModel(raw, raw[i].model));
      if m.Some? {
        RoundHalfEvenUnique(m.value, v.modelYear.value);
      }
    }
  }

  /** A present cylinder count is kept (rounded); a missing one is the model's first mode, rounded. */
  lemma NormalizedCylinders(raw: RawTable, i: nat)
    requires i < |raw|
    ensures raw[i].cylinders.Some? ==>
      CoerceTypes(FillStages(raw))[i].cylinders == Some(RoundHalfEven(raw[i].cylinders.value))
    ensures raw[i].cylinders.None? ==>
      CoerceTypes(FillStages(raw))[i].cylinders == RoundCell(Mode(CylindersOfModel(raw, raw[i].model)))
  {
    var years := ImputeModelYear(raw);
    var cyl := ImputeCylinders(years);
    var odo := ImputeOdometer(cyl);
    var filled := FillPlaceholders(odo);
    assert filled[i].cylinders == odo[i].cylinders == cyl[i].cylinders;
    var v := CoerceTypes(filled)[i];
    if raw[i].cylinders.Some? {
      RoundHalfEvenUnique(raw[i].cylinders.value, v.cylinders.value);
    } else {
      assert ModelKeys(years) == ModelKeys(raw) && Cylinders(years) == Cylinders(raw);
      var m := Mode(CylindersOfModel(raw, raw[i].model));
      if m.Some? {
        RoundHalfEvenUnique(m.value, v.cylinders.value);
      }
    }
  }

  /** A present reading is kept; a missing one gets the mean over its imputed model year. */
  lemma NormalizedOdometer(raw: RawTable, i: nat)
    requires i < |raw|
    ensures raw[i].odometer.Some? ==> CoerceTypes(FillStages(raw))[i].odometer == raw[i].odometer
    ensures raw[i].odometer.None? ==> CoerceTypes(FillStages(raw))[i].odometer == ImputedOdometer(raw, i)
  {
    var years := ImputeModelYear(raw);
    var cyl := ImputeCylinders(years);
    var odo := ImputeOdometer(cyl);
    var filled := FillPlaceholders(odo);
    assert filled[i].odometer == odo[i].odometer;
    assert cyl[i].odometer == years[i].odometer == raw[i].odometer;
    assert cyl[i].modelYear == years[i].modelYear;
    if raw[i].odometer.None? && years[i].modelYear.Some? {
      assert Years(cyl) == Years(years) && Odometers(cyl) == Odometers(years);
    }
  }

  /** The paint colour gets its placeholder; the flag is true only for a present non-zero value. */
  lemma NormalizedPlaceholders(raw: RawTable, i: nat)
    requires i < |raw|
    ensures CoerceTypes(FillStages(raw))[i].paintColor == Some(raw[i].paintColor.GetOr(UnknownColor))
    ensures CoerceTypes(FillStages(raw))[i].is4wd <==> raw[i].is4wd.Some? && raw[i].is4wd.value != 0.0
  {
    var years := ImputeModelYear(raw);
    var cyl := ImputeCylinders(years);
    var odo := ImputeOdometer(cyl);
    assert odo[i].paintColor == cyl[i].paintColor == years[i].paintColor == raw[i].paintColor;
    assert odo[i].is4wd == cyl[i].is4wd == years[i].is4wd == raw[i].is4wd;
  }

  /**
   * The reading step 3 gives a row whose odometer is missing: the mean over
   * the rows that share its model year as step 1 left it (a row that step 1
   * gave a year joins the rows that had that year all along); none when step
   * 1 left its year missing.
   */
  function ImputedOdometer(raw: RawTable, i: nat): Option<real>
    requires i < |raw|
  {
    var years := ImputeModelYear(raw);
    if years[i].modelYear.Some? then Mean(OdometersOfYear(years, years[i].modelYear.value)) else None
  }

  /**
   * `load_data` after the file is read: the frame is rewritten one column
   * at a time, each step seeing the columns the previous steps produced.
   */
  method LoadData(raw: RawTable) returns (data: seq<Vehicle>)
    ensures data == CoerceTypes(FillStages(raw))
    ensures |data| == |raw|
    ensures forall i :: 0 <= i < |raw| ==> data[i].model == raw[i].model && data[i].rest == raw[i].rest
    // model_year: kept (rounded) when present; otherwise the model's median, rounded;
    // filled exactly when its model has some year
    ensures forall i :: 0 <= i < |raw| && raw[i].modelYear.Some? ==>
      data[i].modelYear == Some(RoundHalfEven(raw[i].modelYear.value))
    ensures forall i :: 0 <= i < |raw| && raw[i].modelYear.None? ==>
      data[i].modelYear == RoundCell(Median(YearsOfModel(raw, raw[i].model)))
    ensures forall i :: 0 <= i < |raw| ==>
      (data[i].modelYear.Some? <==>
        exists j :: 0 <= j < |raw| && raw[j].model == raw[i].model && raw[j].modelYear.Some?)
    // cylinders: kept (rounded) when present; otherwise the model's first mode
    ensures forall i :: 0 <= i < |raw| && raw[i].cylinders.Some? ==>
      data[i].cylinders == Some(RoundHalfEven(raw[i].cylinders.value))
    ensures forall i :: 0 <= i < |raw| && raw[i].cylinders.None? ==>
      data[i].cylinders == RoundCell(Mode(CylindersOfModel(raw, raw[i].model)))
    // odometer: grouped by the model year produced by step 1, not the raw one
    ensures forall i :: 0 <= i < |raw| && raw[i].odometer.Some? ==> data[i].odometer == raw[i].odometer
    ensures forall i :: 0 <= i < |raw| && raw[i].odometer.None? ==> data[i].odometer == ImputedOdometer(raw, i)
    // placeholders and the boolean flag
    ensures forall i :: 0 <= i < |raw| ==> data[i].paintColor == Some(raw[i].paintColor.GetOr(UnknownColor))
    ensures forall i :: 0 <= i < |raw| ==> (data[i].is4wd <==> raw[i].is4wd.Some? && raw[i].is4wd.value != 0.0)
  {
    var filled := ImputeModelYear(raw);
    filled := ImputeCylinders(filled);
    filled := ImputeOdometer(filled);
    filled := FillPlaceholders(filled);
    data := CoerceTypes(filled);
    assert data == CoerceTypes(FillStages(raw));
    forall i | 0 <= i < |raw| {
      NormalizedKeepsOtherColumns(raw, i);
    }
    forall i | 0 <= i < |raw| {
      NormalizedModelYear(raw, i);
    }
    forall i | 0 <= i < |raw| {
      NormalizedCylinders(raw, i);
    }
    forall i | 0 <= i < |raw| {
      NormalizedOdometer(raw, i);
    }
    forall i | 0 <= i < |raw| {
      NormalizedPlaceholders(raw, i);
    }
  }
}
