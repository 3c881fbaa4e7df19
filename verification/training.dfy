/** The training script's table preparation: the categorical columns are
    replaced by their label codes, the date column by whole days since the
    earliest date, and the five feature columns are selected. */
module Training {
  import opened Common
  import opened Calendar
  import opened Encoding

  /** One column of the table. Assigning to `df[col]` can change a column's
      kind, so the kind is part of the value. */
  datatype Column =
    | Text(texts: seq<string>)
    | DayFirst(cells: seq<DateFields>)  // date cells read as day, month, year
    | Dates(dates: seq<Date>)
    | Ints(ints: seq<int>)
    | Reals(reals: seq<real>)

  function Height(c: Column): nat {
    match c
    case Text(s) => |s|
    case DayFirst(s) => |s|
    case Dates(s) => |s|
    case Ints(s) => |s|
    case Reals(s) => |s|
  }

  /** A column header: the six the script uses, and any other. */
  datatype Name = DateColumn | Crop | Market | Rainfall | Temperature | Price | Other(header: string)

  /** The columns given to the label encoders, in the order they are encoded. */
  const Categorical: seq<Name> := [Crop, Market]

  /** The model's input columns, in order. */
  const FeatureColumns: seq<Name> := [DateColumn, Crop, Market, Rainfall, Temperature]

  /** The column the model learns to predict. */
  const Target: Name := Price

  /** Every listed column is present as text. */
  predicate TextColumns(cols: map<Name, Column>, names: seq<Name>) {
    forall name :: name in names ==> name in cols && cols[name].Text?
  }

  /** The table after `fit_transform` has replaced each listed column, in
      turn, by its codes. */
  function Encoded(cols: map<Name, Column>, names: seq<Name>): (r: map<Name, Column>)
    requires TextColumns(cols, names)
    ensures r.Keys == cols.Keys
    ensures forall name :: name in names ==> r[name] == Ints(FitTransform(cols[name].texts))
    ensures forall name :: name in cols && name !in names ==> r[name] == cols[name]
  {
    if names == [] then cols
    else
      var name := names[|names| - 1];
      Encoded(cols, names[..|names| - 1])[name := Ints(FitTransform(cols[name].texts))]
  }

  /** The encoder fitted to each listed column. */
  function Encoders(cols: map<Name, Column>, names: seq<Name>): (r: map<Name, Encoder>)
    requires TextColumns(cols, names)
    ensures r.Keys == set name | name in names
    ensures forall name :: name in names ==> r[name] == Fit(cols[name].texts)
  {
    if names == [] then map[]
    else
      var name := names[|names| - 1];
      Encoders(cols, names[..|names| - 1])[name := Fit(cols[name].texts)]
  }

  /** Encoding one more column extends the table and the encoders by that
      column alone. */
  lemma EncodedStep(cols: map<Name, Column>, names: seq<Name>, k: int)
    requires TextColumns(cols, names)
    requires 0 <= k < |names|
    ensures Encoded(cols, names[..k + 1]) == Encoded(cols, names[..k])[names[k] := Ints(FitTransform(cols[names[k]].texts))]
    ensures Encoders(cols, names[..k + 1]) == Encoders(cols, names[..k])[names[k] := Fit(cols[names[k]].texts)]
  {
    assert names[..k + 1][..k] == names[..k];
  }

  /** Codes have as many rows as the column they replace. */
  lemma EncodedKeepsHeight(cols: map<Name, Column>, names: seq<Name>, height: nat)
    requires TextColumns(cols, names)
    requires forall name :: name in cols ==> Height(cols[name]) == height
    ensures forall name :: name in Encoded(cols, names) ==> Height(Encoded(cols, names)[name]) == height
  {
  }

  /** `min()` of a non-empty date column: one of its dates, with the least
      day number. */
  function Earliest(ds: seq<Date>): (m: Date)
    requires |ds| > 0
    ensures m in ds
  {
    if |ds| == 1 then ds[0]
    else
      var init, last := ds[..|ds| - 1], ds[|ds| - 1];
      var m := Earliest(init);
      assert ds == init + [last];
      if Before(last, m) then last else m
  }

  /** No date of the column has a smaller day number than its earliest one. */
  lemma {:induction false} EarliestIsLeast(ds: seq<Date>)
    requires |ds| > 0
    ensures forall d :: d in ds ==> DayNumber(Earliest(ds)) <= DayNumber(d)
  {
    if |ds| > 1 {
      var init, last := ds[..|ds| - 1], ds[|ds| - 1];
      EarliestIsLeast(init);
      DayNumberOrder(last, Earliest(init));
      assert ds == init + [last];
    }
  }

  /** `min()` of a date column: none (NaT) when it is empty, and otherwise a
      date of the column that no date of the column is before. */
  function MinDate(ds: seq<Date>): (m: Option<Date>)
    ensures m.Some? <==> |ds| > 0
    ensures m.Some? ==> m.value in ds && forall d :: d in ds ==> !Before(d, m.value)
  {
    if |ds| == 0 then None
    else
      EarliestIsMinimum(ds);
      Some(Earliest(ds))
  }

  /** `(d - base).dt.days` for every date of the column. */
  function OffsetsFrom(ds: seq<Date>, base: Date): (r: seq<int>)
    ensures |r| == |ds|
  {
    seq(|ds|, i requires 0 <= i < |ds| => DayNumber(ds[i]) - DayNumber(base))
  }

  /** What an offset means on the calendar: it is negative exactly for a date
      before the base, and otherwise stepping that many days forward from the
      base reaches the date. */
  lemma OffsetsFromMeaning(ds: seq<Date>, base: Date)
    ensures forall i :: 0 <= i < |ds| ==> (OffsetsFrom(ds, base)[i] < 0 <==> Before(ds[i], base))
    ensures forall i :: 0 <= i < |ds| && OffsetsFrom(ds, base)[i] >= 0 ==>
                          AddDays(base, OffsetsFrom(ds, base)[i]) == ds[i]
  {
    var r := OffsetsFrom(ds, base);
    forall i | 0 <= i < |ds|
      ensures r[i] < 0 <==> Before(ds[i], base)
      ensures r[i] >= 0 ==> AddDays(base, r[i]) == ds[i]
    {
      DayNumberOrder(ds[i], base);
      if !Before(ds[i], base) {
        DaysBetween(base, ds[i]);
      }
    }
  }

  /** The day offsets of a date column from its earliest date. */
  function Offsets(ds: seq<Date>): (r: seq<int>)
    ensures |r| == |ds|
  {
    if |ds| == 0 then [] else OffsetsFrom(ds, Earliest(ds))
  }

  /** Every cell of a day-first column is a calendar date. */
  predicate AllValid(cells: seq<DateFields>) {
    forall i :: 0 <= i < |cells| ==> IsValid(cells[i])
  }

  predicate IsNumeric(c: Column) {
    c.Ints? || c.Reals?
  }

  /** A numeric cell as the feature matrix holds it. */
  function Numeric(c: Column, i: int): real
    requires IsNumeric(c)
    requires 0 <= i < Height(c)
  {
    if c.Ints? then c.ints[i] as real else c.reals[i]
  }

  /** Every listed column is present, numeric and of the given height. */
  predicate NumericColumns(cols: map<Name, Column>, names: seq<Name>, height: nat) {
    forall name :: name in names ==> name in cols && IsNumeric(cols[name]) && Height(cols[name]) == height
  }

  /** `df[names]`: row by row, the listed columns' cells in the listed order. */
  function Select(cols: map<Name, Column>, names: seq<Name>, height: nat): (x: seq<seq<real>>)
    requires NumericColumns(cols, names, height)
    ensures |x| == height
    ensures forall i :: 0 <= i < height ==> |x[i]| == |names|
  {
    seq(height, i requires 0 <= i < height =>
      seq(|names|, k requires 0 <= k < |names| => Numeric(cols[names[k]], i)))
  }

  /** `pd.to_datetime` on a day-first column: the dates, or None (the
      library raises) when some cell is not a calendar date. */
  method ParseDates(cells: seq<DateFields>) returns (dates: Option<seq<Date>>)
    ensures dates.Some? <==> AllValid(cells)
    ensures dates.Some? ==> dates.value == cells
  {
    var parsed: seq<Date> := [];
    for i := 0 to |cells|
      invariant parsed == cells[..i]
    {
      if !IsValid(cells[i]) {
        return None;
      }
      parsed := parsed + [cells[i]];
    }
    assert cells[..|cells|] == cells;
    return Some(parsed);
  }

  /** `min()` by a scan over the column. */
  method MinOf(ds: seq<Date>) returns (m: Option<Date>)
    ensures m == MinDate(ds)
  {
    if |ds| == 0 {
      return None;
    }
    var least := ds[0];
    for i := 1 to |ds|
      invariant least == Earliest(ds[..i])
    {
      assert ds[..i + 1][..i] == ds[..i];
      if Before(ds[i], least) {
        least := ds[i];
      }
    }
    assert ds[..|ds|] == ds;
    return Some(least);
  }

  /** `(df['date'] - date_min).dt.days`, one row at a time. */
  method DayOffsets(ds: seq<Date>, base: Date) returns (offsets: seq<int>)
    ensures offsets == OffsetsFrom(ds, base)
  {
    offsets := [];
    for i := 0 to |ds|
      invariant |offsets| == i
      invariant forall j :: 0 <= j < i ==> offsets[j] == DayNumber(ds[j]) - DayNumber(base)
    {
      offsets := offsets + [DayNumber(ds[i]) - DayNumber(base)];
    }
  }

  /** `date_min` and the day offsets from it, over a parsed date column. */
  method MinAndOffsets(dates: seq<Date>) returns (least: Option<Date>, offsets: seq<int>)
    ensures least == MinDate(dates)
    ensures offsets == Offsets(dates)
  {
    least := MinOf(dates);
    offsets := [];
    if least.Some? {
      offsets := DayOffsets(dates, least.value);
    }
  }

  /** The loop over the categorical columns: each listed column, in turn, is
      replaced by its codes, and its fitted encoder is kept. */
  method EncodeColumns(cols: map<Name, Column>, names: seq<Name>)
    returns (table: map<Name, Column>, fitted: map<Name, Encoder>)
    requires TextColumns(cols, names)
    ensures table == Encoded(cols, names)
    ensures fitted == Encoders(cols, names)
  {
    table := cols;
    fitted := map[];
    for k := 0 to |names|
      invariant table == Encoded(cols, names[..k])
      invariant fitted == Encoders(cols, names[..k])
    {
      var name := names[k];
      EncodedStep(cols, names, k);
      var texts := cols[name].texts;
      table := table[name := Ints(FitTransform(texts))];
      fitted := fitted[name := Fit(texts)];
    }
    assert names[..|names|] == names;
  }

  /** No date of the column is before its earliest date. */
  lemma EarliestIsMinimum(ds: seq<Date>)
    requires |ds| > 0
    ensures Earliest(ds) in ds
    ensures forall d :: d in ds ==> !Before(d, Earliest(ds))
  {
    EarliestIsLeast(ds);
    forall d | d in ds ensures !Before(d, Earliest(ds)) {
      DayNumberOrder(d, Earliest(ds));
    }
  }

  /** No day offset is negative. */
  lemma OffsetsNonNegative(ds: seq<Date>)
    ensures forall i :: 0 <= i < |ds| ==> Offsets(ds)[i] >= 0
  {
    if |ds| > 0 {
      EarliestIsLeast(ds);
      assert forall i :: 0 <= i < |ds| ==> ds[i] in ds;
    }
  }

  /** A row gets offset 0 exactly when it carries the earliest date. */
  lemma OffsetZeroAtEarliest(ds: seq<Date>, i: int)
    requires 0 <= i < |ds|
    ensures Offsets(ds)[i] == 0 <==> ds[i] == Earliest(ds)
  {
    DayNumberOrder(ds[i], Earliest(ds));
  }

  /** Day offsets keep the calendar order of the dates, and equal offsets
      mean equal dates. */
  lemma OffsetsPreserveOrder(ds: seq<Date>, i: int, j: int)
    requires 0 <= i < |ds| && 0 <= j < |ds|
    ensures Before(ds[i], ds[j]) <==> Offsets(ds)[i] < Offsets(ds)[j]
    ensures ds[i] == ds[j] <==> Offsets(ds)[i] == Offsets(ds)[j]
  {
    DayNumberOrder(ds[i], ds[j]);
  }

  /** The difference of two offsets is the number of calendar days from one
      date to the other. */
  lemma OffsetDifference(ds: seq<Date>, i: int, j: int)
    requires 0 <= i < |ds| && 0 <= j < |ds|
    requires Offsets(ds)[i] <= Offsets(ds)[j]
    ensures AddDays(ds[i], Offsets(ds)[j] - Offsets(ds)[i]) == ds[j]
  {
    DayNumberOrder(ds[j], ds[i]);
    DaysBetween(ds[i], ds[j]);
  }

  /** What the script needs of the table it reads: text crop and market
      columns, a day-first date column of calendar dates, numeric rainfall
      and temperature, all of one height. */
  predicate Trainable(cols: map<Name, Column>, height: nat) {
    && TextColumns(cols, Categorical)
    && (forall name :: name in cols ==> Height(cols[name]) == height)
    && DateColumn in cols && cols[DateColumn].DayFirst? && AllValid(cols[DateColumn].cells)
    && NumericColumns(cols, [Rainfall, Temperature], height)
  }

  /** The table once the categorical columns are encoded and the dates are
      day offsets. */
  function Prepared(cols: map<Name, Column>, height: nat): (r: map<Name, Column>)
    requires Trainable(cols, height)
    ensures NumericColumns(r, FeatureColumns, height)
  {
    PreparedNumeric(cols, height);
    Encoded(cols, Categorical)[DateColumn := Ints(Offsets(cols[DateColumn].cells))]
  }

  /** After encoding and date conversion every feature column is numeric and
      of the table's height. */
  lemma PreparedNumeric(cols: map<Name, Column>, height: nat)
    requires Trainable(cols, height)
    ensures NumericColumns(Encoded(cols, Categorical)[DateColumn := Ints(Offsets(cols[DateColumn].cells))],
                           FeatureColumns, height)
  {
    var r := Encoded(cols, Categorical)[DateColumn := Ints(Offsets(cols[DateColumn].cells))];
    EncodedFeatureColumns(cols, height);
    forall name | name in FeatureColumns
      ensures name in r && IsNumeric(r[name]) && Height(r[name]) == height
    {
      if name == Rainfall || name == Temperature {
        assert name in [Rainfall, Temperature];
      }
    }
  }

  /** The columns encoding leaves for the feature matrix: codes for crop and
      market, rainfall and temperature as they were. */
  lemma EncodedFeatureColumns(cols: map<Name, Column>, height: nat)
    requires Trainable(cols, height)
    ensures Crop in cols && Market in cols && Rainfall in cols && Temperature in cols
    ensures cols[Crop].Text? && cols[Market].Text?
    ensures |cols[Crop].texts| == height && |cols[Market].texts| == height
    ensures Encoded(cols, Categorical)[Crop] == Ints(FitTransform(cols[Crop].texts))
    ensures Encoded(cols, Categorical)[Market] == Ints(FitTransform(cols[Market].texts))
    ensures Encoded(cols, Categorical)[Rainfall] == cols[Rainfall]
    ensures Encoded(cols, Categorical)[Temperature] == cols[Temperature]
  {
    assert Crop in Categorical && Market in Categorical;
    assert Height(cols[Crop]) == height && Height(cols[Market]) == height;
  }

  /** The feature matrix `X` of a trainable table. */
  function Features(cols: map<Name, Column>, height: nat): (x: seq<seq<real>>)
    requires Trainable(cols, height)
    ensures |x| == height
    ensures forall i :: 0 <= i < height ==> |x[i]| == |FeatureColumns|
  {
    Select(Prepared(cols, height), FeatureColumns, height)
  }

  /** Every feature row holds exactly five values, in the order date offset,
      crop code, market code, rainfall, temperature. */
  lemma FeatureRows(cols: map<Name, Column>, height: nat, i: int)
    requires Trainable(cols, height)
    requires 0 <= i < height
    ensures Features(cols, height)[i] == [
      Offsets(cols[DateColumn].cells)[i] as real,
      FitTransform(cols[Crop].texts)[i] as real,
      FitTransform(cols[Market].texts)[i] as real,
      Numeric(cols[Rainfall], i),
      Numeric(cols[Temperature], i)]
  {
    EncodedFeatureColumns(cols, height);
  }

  /** The data frame of the training script, changed column by column. */
  class TrainingFrame {
    var columns: map<Name, Column>
    var height: nat
    /** The fitted encoder of each encoded column. */
    var encoders: map<Name, Encoder>
    /** `date_min`, once the dates have been converted. */
    var dateMin: Option<Date>

    /** All columns have the frame's height. */
    ghost predicate Valid()
      reads this
    {
      forall name :: name in columns ==> Height(columns[name]) == height
    }

    /** The table as read from the file. */
    constructor (columns: map<Name, Column>, height: nat)
      requires forall name :: name in columns ==> Height(columns[name]) == height
      ensures Valid()
      ensures this.columns == columns && this.height == height
      ensures encoders == map[] && dateMin == None
    {
      this.columns := columns;
      this.height := height;
      encoders := map[];
      dateMin := None;
    }

    /** `encoders = {}` and the loop over the categorical columns: each is
        replaced by its codes and its encoder is kept. */
    method EncodeCategoricals()
      requires Valid()
      requires TextColumns(columns, Categorical)
      modifies this
      ensures Valid()
      ensures columns == Encoded(old(columns), Categorical)
      ensures encoders == Encoders(old(columns), Categorical)
      ensures height == old(height) && dateMin == old(dateMin)
    {
      var table, fitted := EncodeColumns(columns, Categorical);
      EncodedKeepsHeight(columns, Categorical, height);
      columns := table;
      encoders := fitted;
    }

    /** `pd.to_datetime` on the date column, `date_min`, and the day offsets.
        An invalid date stops the script: `ok` is false and nothing changes. */
    method ConvertDates() returns (ok: bool)
      requires Valid()
      requires DateColumn in columns && columns[DateColumn].DayFirst?
      modifies this
      ensures Valid()
      ensures ok <==> AllValid(old(columns)[DateColumn].cells)
      ensures !ok ==> columns == old(columns) && dateMin == old(dateMin)
      ensures ok ==> dateMin == MinDate(old(columns)[DateColumn].cells)
      ensures ok ==> columns == old(columns)[DateColumn := Ints(Offsets(old(columns)[DateColumn].cells))]
      ensures height == old(height) && encoders == old(encoders)
    {
      var cells := columns[DateColumn].cells;
      var parsed := ParseDates(cells);
      if parsed.None? {
        return false;
      }
      var dates := parsed.value;
      columns := columns[DateColumn := Dates(dates)];
      var least, offsets := MinAndOffsets(dates);
      columns := columns[DateColumn := Ints(offsets)];
      dateMin := least;
      ok := true;
    }

    /** The whole preparation: encode, convert the dates, then take the
        feature matrix `X` and the target `y`. */
    method Prepare() returns (ok: bool, x: seq<seq<real>>, y: seq<real>)
      requires Valid()
      requires TextColumns(columns, Categorical)
      requires DateColumn in columns && columns[DateColumn].DayFirst?
      requires NumericColumns(columns, [Rainfall, Temperature], height)
      requires Target in columns && IsNumeric(columns[Target]) && Height(columns[Target]) == height
      modifies this
      ensures ok <==> AllValid(old(columns)[DateColumn].cells)
      ensures ok ==> x == Features(old(columns), old(height))
      ensures ok ==> |y| == old(height) && forall i :: 0 <= i < old(height) ==> y[i] == Numeric(old(columns)[Target], i)
      ensures ok ==> encoders == Encoders(old(columns), Categorical)
      ensures ok ==> dateMin == MinDate(old(columns)[DateColumn].cells)
      ensures ok ==> Valid() && height == old(height) && columns == Prepared(old(columns), old(height))
    {
      ghost var original := columns;
      EncodeCategoricals();
      ok := ConvertDates();
      if !ok {
        return false, [], [];
      }
      assert columns == Prepared(original, height);
      assert columns[Target] == original[Target];
      x := Select(columns, FeatureColumns, height);
      var h, target := height, columns[Target];
      y := seq(h, i requires 0 <= i < h => Numeric(target, i));
    }
  }
}
