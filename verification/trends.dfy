/** The price-trend and crop-comparison pages (app.py:183-190, 218-228): the
    rows of a crop in a county grouped by year, with the mean price of each
    year in ascending year order, and the default selections the pages fall
    back on when a form field is left empty. */
module Trends {
  import opened Common
  import opened Ordering
  import opened Calendar
  import opened Dataset
  import Prediction

  /** One point of a yearly series: a year and the mean price in that year. */
  datatype Point = Point(year: int, mean: real)

  /** The rows of one year, in table order. */
  function InYear(rows: seq<Row>, year: int): (s: seq<Row>)
    ensures |s| <= |rows|
    ensures forall row :: row in s <==> row in rows && row.year == year
  {
    if rows == [] then []
    else if rows[0].year == year then [rows[0]] + InYear(rows[1..], year)
    else InYear(rows[1..], year)
  }

  /** `groupby('year')['price'].mean()` for one group: the mean price of the
      rows of that year. */
  function YearMean(rows: seq<Row>, year: int): real
    requires |InYear(rows, year)| > 0
  {
    Prediction.MeanPrice(InYear(rows, year))
  }

  /** A year's rows keep their multiplicity: a sale listed twice is counted
      twice in that year's mean. */
  lemma {:induction false} InYearMultiplicity(rows: seq<Row>, year: int)
    ensures forall row :: multiset(InYear(rows, year))[row]
                            == if row.year == year then multiset(rows)[row] else 0
  {
    if rows != [] {
      assert rows == [rows[0]] + rows[1..];
      InYearMultiplicity(rows[1..], year);
    }
  }

  /** Every year of the drop-down order has at least one row. */
  lemma YearsHaveRows(rows: seq<Row>)
    ensures forall y :: y in Years(rows) ==> |InYear(rows, y)| > 0
  {
    DropdownLists(rows);
    forall y | y in Years(rows) ensures |InYear(rows, y)| > 0 {
      var row :| row in rows && row.year == y;
      assert row in InYear(rows, y);
    }
  }

  /** `groupby('year')['price'].mean().reset_index()`: one point per distinct
      year, in ascending year order. */
  function Yearly(rows: seq<Row>): (r: seq<Point>)
    ensures |r| == |Years(rows)|
    ensures forall i :: 0 <= i < |r| ==>
      r[i].year == Years(rows)[i] && |InYear(rows, r[i].year)| > 0 && r[i].mean == YearMean(rows, r[i].year)
  {
    var ys := Years(rows);
    YearsHaveRows(rows);
    seq(|ys|, i requires 0 <= i < |ys| => Point(ys[i], YearMean(rows, ys[i])))
  }

  /** The series the trends page plots for a crop in a county, or None when no
      row matches (the page then shows no chart). */
  function Trend(rows: seq<Row>, crop: string, county: string): (r: Option<seq<Point>>)
    ensures r.None? <==> Matching(rows, crop, county) == []
    ensures r.Some? ==> |r.value| > 0
  {
    var filtered := Matching(rows, crop, county);
    if filtered == [] then None
    else
      assert filtered[0] in filtered;
      DropdownLists(filtered);
      assert filtered[0].year in Years(filtered);
      Some(Yearly(filtered))
  }

  /** The two series of the comparison page, or None unless both crops have
      rows in the county. The two series are two independent trends. */
  function Compare(rows: seq<Row>, crop1: string, crop2: string, county: string)
    : (r: Option<(seq<Point>, seq<Point>)>)
    ensures r.Some? <==> Trend(rows, crop1, county).Some? && Trend(rows, crop2, county).Some?
    ensures r.Some? ==> r.value.0 == Trend(rows, crop1, county).value
    ensures r.Some? ==> r.value.1 == Trend(rows, crop2, county).value
  {
    var filtered1 := Matching(rows, crop1, county);
    var filtered2 := Matching(rows, crop2, county);
    if filtered1 != [] && filtered2 != [] then Some((Yearly(filtered1), Yearly(filtered2)))
    else None
  }

  // ---------------------------------------------------------------------------
  // What a yearly series holds

  /** The years of a series strictly ascend. */
  lemma YearlyAscending(rows: seq<Row>)
    ensures forall i, j :: 0 <= i < j < |Yearly(rows)| ==> Yearly(rows)[i].year < Yearly(rows)[j].year
  {
    var r := Yearly(rows);
    IntLessIsStrictTotal();
    assert Ascending(Years(rows), IntLess);
    forall i, j | 0 <= i < j < |r| ensures r[i].year < r[j].year {
      assert IntLess(Years(rows)[i], Years(rows)[j]);
    }
  }

  /** A series has a point for exactly the years that occur in the rows. */
  lemma YearlyCoversYears(rows: seq<Row>)
    ensures forall p :: p in Yearly(rows) ==> exists row :: row in rows && row.year == p.year
    ensures forall row :: row in rows ==> exists p :: p in Yearly(rows) && p.year == row.year
  {
    var r := Yearly(rows);
    var ys := Years(rows);
    DropdownLists(rows);
    forall p | p in r ensures exists row :: row in rows && row.year == p.year {
      var i :| 0 <= i < |r| && r[i] == p;
      assert ys[i] in ys;
    }
    forall row | row in rows ensures exists p :: p in r && p.year == row.year {
      assert row.year in ys;
      var i :| 0 <= i < |ys| && ys[i] == row.year;
      assert r[i] in r;
    }
  }

  /** One more price in [lo, hi] keeps a total of k prices within k·lo and k·hi. */
  lemma BoundStep(k: real, total: real, price: real, lo: real, hi: real)
    requires k * lo <= total <= k * hi && lo <= price <= hi
    ensures (k + 1.0) * lo <= total + price <= (k + 1.0) * hi
  {
    CountStep(k, lo);
    CountStep(k, hi);
  }

  /** If every price of the rows lies in [lo, hi], the total of the first n
      lies in [n·lo, n·hi]. */
  lemma {:induction false} PriceSumBounds(rows: seq<Row>, lo: real, hi: real, n: nat)
    requires n <= |rows|
    requires forall row :: row in rows ==> lo <= row.price <= hi
    ensures n as real * lo <= Prediction.Sum(Prediction.Prices(rows), n) <= n as real * hi
    decreases n
  {
    if n > 0 {
      assert rows[n - 1] in rows;
      PriceSumBounds(rows, lo, hi, n - 1);
      BoundStep((n - 1) as real, Prediction.Sum(Prediction.Prices(rows), n - 1), rows[n - 1].price, lo, hi);
    }
  }

  /** A mean of values in [lo, hi] lies in [lo, hi]. */
  lemma MeanBounds(t: real, n: real, lo: real, hi: real)
    requires n > 0.0 && n * lo <= t <= n * hi
    ensures lo <= t / n <= hi
  {
    assert n * (t / n) == t;
  }

  /** The mean price of rows whose prices lie in [lo, hi] lies in [lo, hi]. */
  lemma MeanPriceWithin(rows: seq<Row>, lo: real, hi: real)
    requires |rows| > 0
    requires forall row :: row in rows ==> lo <= row.price <= hi
    ensures lo <= Prediction.MeanPrice(rows) <= hi
  {
    PriceSumBounds(rows, lo, hi, |rows|);
    MeanBounds(Prediction.Sum(Prediction.Prices(rows), |rows|), |rows| as real, lo, hi);
  }

  /** A year's mean lies between the lowest and the highest price of that
      year; in particular a year whose prices are all c has mean c. */
  lemma YearMeanWithin(rows: seq<Row>, year: int, lo: real, hi: real)
    requires |InYear(rows, year)| > 0
    requires forall row :: row in rows && row.year == year ==> lo <= row.price <= hi
    ensures lo <= YearMean(rows, year) <= hi
  {
    MeanPriceWithin(InYear(rows, year), lo, hi);
  }

  /** The trend of a crop in a county: ascending years, each the year of a
      matching row, every matching row's year present, and every mean the
      mean of the matching rows of that year. */
  lemma TrendSpec(rows: seq<Row>, crop: string, county: string)
    requires Trend(rows, crop, county).Some?
    ensures var s := Trend(rows, crop, county).value;
      var filtered := Matching(rows, crop, county);
      && (forall i, j :: 0 <= i < j < |s| ==> s[i].year < s[j].year)
      && (forall p :: p in s ==> exists row :: row in rows && Matches(row, crop, county) && row.year == p.year)
      && (forall row :: row in rows && Matches(row, crop, county) ==> exists p :: p in s && p.year == row.year)
      && (forall p :: p in s ==> |InYear(filtered, p.year)| > 0 && p.mean == YearMean(filtered, p.year))
  {
    var filtered := Matching(rows, crop, county);
    YearlyAscending(filtered);
    YearlyCoversYears(filtered);
    var s := Trend(rows, crop, county).value;
    assert s == Yearly(filtered);
    forall p | p in s ensures |InYear(filtered, p.year)| > 0 && p.mean == YearMean(filtered, p.year) {
      var i :| 0 <= i < |s| && s[i] == p;
    }
    forall row | row in rows && Matches(row, crop, county) ensures exists p :: p in s && p.year == row.year {
      assert row in filtered;
    }
  }

  /** The comparison's first series does not depend on the second crop. */
  lemma CompareIndependent(rows: seq<Row>, crop1: string, crop2: string, crop2': string, county: string)
    requires Compare(rows, crop1, crop2, county).Some? && Compare(rows, crop1, crop2', county).Some?
    ensures Compare(rows, crop1, crop2, county).value.0 == Compare(rows, crop1, crop2', county).value.0
  {
  }

  // ---------------------------------------------------------------------------
  // Default selections

  /** Python truthiness of a form value: absent and "" are both false. */
  predicate Given(field: Option<string>) {
    field.Some? && field.value != ""
  }

  /** `field or fallback`, where evaluating the fallback may fail (an index
      past the end of a list raises), which None stands for. */
  function OrElse(field: Option<string>, fallback: Option<string>): (r: Option<string>)
    ensures Given(field) ==> r == field
    ensures !Given(field) ==> r == fallback
  {
    if Given(field) then field else fallback
  }

  /** `values[k]`, or None when the list is too short. */
  function Nth(values: seq<string>, k: nat): (r: Option<string>)
    ensures r.Some? <==> k < |values|
    ensures r.Some? ==> r.value == values[k]
  {
    if k < |values| then Some(values[k]) else None
  }

  /** What a page shows after the defaults are applied. */
  datatype TrendPage = TrendPage(crop: string, county: string, series: Option<seq<Point>>)

  datatype ComparePage = ComparePage(crop1: string, crop2: string, county: string,
                                     series: Option<(seq<Point>, seq<Point>)>)

  /** The trends route: the crop and county from the form, each falling back
      on the first entry of its drop-down list. None when a fallback is needed
      and its list is empty. */
  function TrendsRoute(data: Dataset, cropField: Option<string>, countyField: Option<string>)
    : (r: Option<TrendPage>)
    ensures r.None? <==> (!Given(cropField) && |data.crops| == 0) || (!Given(countyField) && |data.counties| == 0)
    ensures r.Some? ==> r.value.crop == (if Given(cropField) then cropField.value else data.crops[0])
    ensures r.Some? ==> r.value.county == (if Given(countyField) then countyField.value else data.counties[0])
    ensures r.Some? ==> r.value.series == Trend(data.rows, r.value.crop, r.value.county)
  {
    var crop := OrElse(cropField, Nth(data.crops, 0));
    var county := OrElse(countyField, Nth(data.counties, 0));
    if crop.None? || county.None? then None
    else Some(TrendPage(crop.value, county.value, Trend(data.rows, crop.value, county.value)))
  }

  /** `crops[1] if len(crops) > 1 else crops[0]` */
  function SecondCropDefault(crops: seq<string>): (r: Option<string>)
    ensures r.Some? <==> |crops| > 0
    ensures r.Some? ==> r.value == if |crops| > 1 then crops[1] else crops[0]
  {
    if |crops| > 1 then Some(crops[1]) else Nth(crops, 0)
  }

  /** The compare route: two crops and a county from the form with their
      defaults, and the two series when both crops have rows. */
  function CompareRoute(data: Dataset, crop1Field: Option<string>, crop2Field: Option<string>,
                        countyField: Option<string>): (r: Option<ComparePage>)
    ensures r.None? <==>
      ((!Given(crop1Field) || !Given(crop2Field)) && |data.crops| == 0)
      || (!Given(countyField) && |data.counties| == 0)
    ensures r.Some? ==> r.value.crop1 == (if Given(crop1Field) then crop1Field.value else data.crops[0])
    ensures r.Some? ==> r.value.crop2 == (if Given(crop2Field) then crop2Field.value
                                          else if |data.crops| > 1 then data.crops[1] else data.crops[0])
    ensures r.Some? ==> r.value.county == (if Given(countyField) then countyField.value else data.counties[0])
    ensures r.Some? ==> r.value.series == Compare(data.rows, r.value.crop1, r.value.crop2, r.value.county)
  {
    var crop1 := OrElse(crop1Field, Nth(data.crops, 0));
    var crop2 := OrElse(crop2Field, SecondCropDefault(data.crops));
    var county := OrElse(countyField, Nth(data.counties, 0));
    if crop1.None? || crop2.None? || county.None? then None
    else Some(ComparePage(crop1.value, crop2.value, county.value,
                          Compare(data.rows, crop1.value, crop2.value, county.value)))
  }

  /** With every field empty the pages show the first crop, the second crop
      when there is one (else the first again), and the first county. */
  lemma DefaultSelections(data: Dataset)
    requires |data.crops| > 0 && |data.counties| > 0
    ensures TrendsRoute(data, None, None).Some?
    ensures TrendsRoute(data, None, None).value.crop == data.crops[0]
    ensures TrendsRoute(data, None, None).value.county == data.counties[0]
    ensures CompareRoute(data, None, None, None).Some?
    ensures CompareRoute(data, None, None, None).value.crop1 == data.crops[0]
    ensures CompareRoute(data, None, None, None).value.crop2 == (if |data.crops| > 1 then data.crops[1] else data.crops[0])
    ensures CompareRoute(data, None, None, None).value.county == data.counties[0]
  {
  }

  /** A crop picked in the form is used as it is, whatever the lists hold. */
  lemma GivenFieldsWin(data: Dataset, crop: string, county: string)
    requires crop != "" && county != ""
    ensures TrendsRoute(data, Some(crop), Some(county)) == Some(TrendPage(crop, county, Trend(data.rows, crop, county)))
  {
  }

  /** The series of rows in two years with given means. */
  lemma {:induction false} TwoYearSeries(rows: seq<Row>, y1: int, y2: int)
    requires y1 < y2
    requires forall row :: row in rows ==> row.year == y1 || row.year == y2
    requires |InYear(rows, y1)| > 0 && |InYear(rows, y2)| > 0
    ensures Yearly(rows) == [Point(y1, YearMean(rows, y1)), Point(y2, YearMean(rows, y2))]
  {
    DropdownLists(rows);
    IntLessIsStrictTotal();
    assert InYear(rows, y1)[0] in rows && InYear(rows, y2)[0] in rows;
    AscendingUnique(Years(rows), [y1, y2], IntLess);
  }

  /** The two compare series may differ in length and in years: a crop sold
      in 2020 and 2021 next to one sold only in 2021. */
  lemma CompareExample()
    ensures
      var rows := [Row(DateFields(1, 3, 2020), 2020, "Maize", "Nakuru", 30.0),
                   Row(DateFields(1, 3, 2021), 2021, "Maize", "Nakuru", 40.0),
                   Row(DateFields(9, 3, 2021), 2021, "Maize", "Nakuru", 50.0),
                   Row(DateFields(1, 3, 2021), 2021, "Beans", "Nakuru", 90.0)];
      Compare(rows, "Maize", "Beans", "Nakuru")
        == Some(([Point(2020, 30.0), Point(2021, 45.0)], [Point(2021, 90.0)]))
  {
    var r0 := Row(DateFields(1, 3, 2020), 2020, "Maize", "Nakuru", 30.0);
    var r1 := Row(DateFields(1, 3, 2021), 2021, "Maize", "Nakuru", 40.0);
    var r2 := Row(DateFields(9, 3, 2021), 2021, "Maize", "Nakuru", 50.0);
    var r3 := Row(DateFields(1, 3, 2021), 2021, "Beans", "Nakuru", 90.0);
    ExampleMatching(r0, r1, r2, r3);
    MaizeSeries(r0, r1, r2);
    BeansSeries(r3);
  }

  /** The selections of the example table. */
  lemma ExampleMatching(r0: Row, r1: Row, r2: Row, r3: Row)
    requires r0.crop == "Maize" && r1.crop == "Maize" && r2.crop == "Maize" && r3.crop == "Beans"
    requires r0.county == "Nakuru" && r1.county == "Nakuru" && r2.county == "Nakuru" && r3.county == "Nakuru"
    ensures Matching([r0, r1, r2, r3], "Maize", "Nakuru") == [r0, r1, r2]
    ensures Matching([r0, r1, r2, r3], "Beans", "Nakuru") == [r3]
  {
    var rows := [r0, r1, r2, r3];
    assert rows[1..] == [r1, r2, r3] && [r1, r2, r3][1..] == [r2, r3] && [r2, r3][1..] == [r3];
    assert Matching([r3], "Maize", "Nakuru") == [];
    assert Matching([r2, r3], "Maize", "Nakuru") == [r2];
    assert Matching([r1, r2, r3], "Maize", "Nakuru") == [r1, r2];
    assert Matching([r2, r3], "Beans", "Nakuru") == [r3];
    assert Matching([r1, r2, r3], "Beans", "Nakuru") == [r3];
  }

  /** The example's first series: 2020 alone, then the mean of 40 and 50. */
  lemma MaizeSeries(r0: Row, r1: Row, r2: Row)
    requires r0 == Row(DateFields(1, 3, 2020), 2020, "Maize", "Nakuru", 30.0)
    requires r1 == Row(DateFields(1, 3, 2021), 2021, "Maize", "Nakuru", 40.0)
    requires r2 == Row(DateFields(9, 3, 2021), 2021, "Maize", "Nakuru", 50.0)
    ensures Yearly([r0, r1, r2]) == [Point(2020, 30.0), Point(2021, 45.0)]
  {
    var maize := [r0, r1, r2];
    assert maize[1..] == [r1, r2] && [r1, r2][1..] == [r2];
    assert InYear([r2], 2020) == [];
    assert InYear([r1, r2], 2020) == [];
    assert InYear(maize, 2020) == [r0];
    assert InYear([r2], 2021) == [r2];
    assert InYear([r1, r2], 2021) == [r1, r2];
    assert InYear(maize, 2021) == [r1, r2];
    assert Prediction.Prices([r0]) == [30.0];
    assert Prediction.Prices([r1, r2]) == [40.0, 50.0];
    assert Prediction.Sum([30.0], 1) == 30.0;
    assert Prediction.Sum([40.0, 50.0], 2) == 90.0;
    assert YearMean(maize, 2020) == 30.0;
    assert YearMean(maize, 2021) == 45.0;
    TwoYearSeries(maize, 2020, 2021);
  }

  /** The example's second series: one row, one point. */
  lemma BeansSeries(r3: Row)
    requires r3 == Row(DateFields(1, 3, 2021), 2021, "Beans", "Nakuru", 90.0)
    ensures Yearly([r3]) == [Point(2021, 90.0)]
  {
    assert InYear([r3], 2021) == [r3];
    assert Prediction.Prices([r3]) == [90.0];
    DropdownLists([r3]);
    IntLessIsStrictTotal();
    AscendingUnique(Years([r3]), [2021], IntLess);
    assert Prediction.Sum([90.0], 1) == 90.0;
    assert YearMean([r3], 2021) == 90.0;
  }
}
