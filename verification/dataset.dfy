/** The price table the web application loads at start-up (app.py:62-85):
    column names lower-cased and checked, dates parsed with failures dropped,
    the year derived, crop and market title-cased, rows without a price
    dropped, and the sorted distinct crop, county and year lists built for the
    drop-downs. */
module Dataset {
  import opened Common
  import opened Ordering
  import opened Text
  import opened Calendar

  /** One CSV row as read: any cell may be empty. The date cell is given as the
      fields the date parser read from it. */
  datatype RawRow = RawRow(
    date: Option<DateFields>,
    market: Option<string>,
    crop: Option<string>,
    price: Option<real>)

  /** A cleaned row: the date parsed, the price present, `county` the
      title-cased market. */
  datatype Row = Row(date: Date, year: int, crop: string, county: string, price: real)

  /** The loaded table together with the drop-down lists. */
  datatype Dataset = Dataset(rows: seq<Row>, crops: seq<string>, counties: seq<string>, years: seq<int>)

  datatype LoadResult = MissingColumn(name: string) | Loaded(data: Dataset)

  const REQUIRED_COLUMNS: seq<string> := ["date", "market", "crop", "price"]

  /** The header after `df.columns.str.lower()`. */
  function LowerHeader(header: seq<string>): seq<string> {
    seq(|header|, i requires 0 <= i < |header| => Lower(header[i]))
  }

  /** The check over the required columns: the first one the lower-cased header
      lacks, or None when all are there. */
  method CheckColumns(header: seq<string>) returns (missing: Option<string>)
    ensures missing == None <==> forall c :: c in REQUIRED_COLUMNS ==> c in LowerHeader(header)
    ensures missing.Some? ==>
      exists k :: 0 <= k < |REQUIRED_COLUMNS| && missing.value == REQUIRED_COLUMNS[k]
        && missing.value !in LowerHeader(header)
        && forall j :: 0 <= j < k ==> REQUIRED_COLUMNS[j] in LowerHeader(header)
  {
    var columns := LowerHeader(header);
    var i := 0;
    while i < |REQUIRED_COLUMNS|
      invariant 0 <= i <= |REQUIRED_COLUMNS|
      invariant forall j :: 0 <= j < i ==> REQUIRED_COLUMNS[j] in columns
    {
      if REQUIRED_COLUMNS[i] !in columns {
        return Some(REQUIRED_COLUMNS[i]);
      }
      i := i + 1;
    }
    return None;
  }

  /** `pd.to_datetime(..., errors='coerce')`: an empty cell or an impossible
      calendar date becomes "not a time" (None). */
  function ParseDate(cell: Option<DateFields>): (d: Option<Date>)
    ensures d.Some? <==> cell.Some? && IsValid(cell.value)
    ensures d.Some? ==> d.value == cell.value
  {
    match cell
    case None => None
    case Some(f) => if IsValid(f) then Some(f) else None
  }

  /** `astype(str)`: an empty cell reads as the text "nan". */
  function AsText(cell: Option<string>): (s: string)
    ensures cell.None? ==> s == "nan"
    ensures cell.Some? ==> s == cell.value
  {
    match cell
    case None => "nan"
    case Some(s) => s
  }

  /** A row survives cleaning when its date parses and its price is present. */
  predicate Keeps(r: RawRow) {
    ParseDate(r.date).Some? && r.price.Some?
  }

  /** The cleaned form of one row, or None when cleaning drops it. */
  function CleanRow(r: RawRow): (c: Option<Row>)
    ensures c.Some? <==> Keeps(r)
    ensures c.Some? ==> c.value.date == r.date.value && c.value.price == r.price.value
    ensures c.Some? ==> c.value.year == c.value.date.year
    ensures c.Some? ==> c.value.crop == Title(AsText(r.crop)) && c.value.county == Title(AsText(r.market))
  {
    match ParseDate(r.date)
    case None => None
    case Some(d) =>
      match r.price
      case None => None
      case Some(p) => Some(Row(d, d.year, Title(AsText(r.crop)), Title(AsText(r.market)), p))
  }

  /** The positions of the rows that survive cleaning, in ascending order. */
  function KeptIndices(raw: seq<RawRow>): (idx: seq<nat>)
    ensures forall k :: 0 <= k < |idx| ==> idx[k] < |raw| && Keeps(raw[idx[k]])
    ensures forall i :: 0 <= i < |raw| && Keeps(raw[i]) ==> i in idx
    ensures forall j, k :: 0 <= j < k < |idx| ==> idx[j] < idx[k]
  {
    if raw == [] then []
    else
      var init := raw[..|raw| - 1];
      var rest := KeptIndices(init);
      assert forall i :: 0 <= i < |init| ==> init[i] == raw[i];
      if Keeps(raw[|raw| - 1]) then
        assert forall k :: 0 <= k < |rest| ==> rest[k] < |raw| - 1;
        rest + [|raw| - 1]
      else rest
  }

  /** The cleaned table: kept rows in their original order. */
  function Cleaned(raw: seq<RawRow>): (rows: seq<Row>)
    ensures |rows| <= |raw|
  {
    if raw == [] then []
    else
      var rest := Cleaned(raw[..|raw| - 1]);
      match CleanRow(raw[|raw| - 1])
      case None => rest
      case Some(row) => rest + [row]
  }

  /** The cleaned table is the cleaned form of each kept row, in the original
      order, each kept row exactly once. */
  lemma {:induction false} CleanedInOrder(raw: seq<RawRow>)
    ensures |Cleaned(raw)| == |KeptIndices(raw)|
    ensures forall k :: 0 <= k < |Cleaned(raw)| ==> CleanRow(raw[KeptIndices(raw)[k]]) == Some(Cleaned(raw)[k])
  {
    if raw != [] {
      var init, last := raw[..|raw| - 1], raw[|raw| - 1];
      CleanedInOrder(init);
      var rest, idx := Cleaned(init), KeptIndices(init);
      forall k | 0 <= k < |idx| ensures raw[idx[k]] == init[idx[k]] {
      }
      if CleanRow(last).Some? {
        assert Cleaned(raw) == rest + [CleanRow(last).value];
        assert KeptIndices(raw) == idx + [|raw| - 1];
      } else {
        assert Cleaned(raw) == rest;
        assert KeptIndices(raw) == idx;
      }
    }
  }

  /** The cleaning pass over the table, row by row. */
  method CleanRows(raw: seq<RawRow>) returns (rows: seq<Row>)
    ensures rows == Cleaned(raw)
  {
    rows := [];
    var i := 0;
    while i < |raw|
      invariant 0 <= i <= |raw|
      invariant rows == Cleaned(raw[..i])
    {
      assert raw[..i + 1][..i] == raw[..i];
      var cleaned := CleanRow(raw[i]);
      if cleaned.Some? {
        rows := rows + [cleaned.value];
      }
      i := i + 1;
    }
    assert raw[..i] == raw;
  }

  /** Every cleaned row comes from a kept raw row, and every kept raw row
      gives a cleaned row. */
  lemma CleanedRows(raw: seq<RawRow>)
    ensures forall row :: row in Cleaned(raw) <==> exists i :: 0 <= i < |raw| && CleanRow(raw[i]) == Some(row)
  {
    var rows, idx := Cleaned(raw), KeptIndices(raw);
    CleanedInOrder(raw);
    forall k | 0 <= k < |rows| ensures exists i :: 0 <= i < |raw| && CleanRow(raw[i]) == Some(rows[k]) {
      assert CleanRow(raw[idx[k]]) == Some(rows[k]);
    }
    forall i | 0 <= i < |raw| && CleanRow(raw[i]).Some? ensures CleanRow(raw[i]).value in rows {
      KeptRowCleaned(raw, i);
    }
  }

  /** A kept raw row's cleaned form is in the cleaned table. */
  lemma KeptRowCleaned(raw: seq<RawRow>, i: int)
    requires 0 <= i < |raw| && CleanRow(raw[i]).Some?
    ensures CleanRow(raw[i]).value in Cleaned(raw)
  {
    var rows, idx := Cleaned(raw), KeptIndices(raw);
    CleanedInOrder(raw);
    assert i in idx;
    var k :| 0 <= k < |idx| && idx[k] == i;
    assert rows[k] == CleanRow(raw[i]).value;
  }

  /** After cleaning every row has a parsed date, a price, the year of its
      date, and title-cased crop and county. */
  lemma CleanedRowsWellFormed(raw: seq<RawRow>)
    ensures forall row :: row in Cleaned(raw) ==>
      row.year == row.date.year && Title(row.crop) == row.crop && Title(row.county) == row.county
  {
    CleanedRows(raw);
    forall row | row in Cleaned(raw)
      ensures row.year == row.date.year && Title(row.crop) == row.crop && Title(row.county) == row.county
    {
      var i :| 0 <= i < |raw| && CleanRow(raw[i]) == Some(row);
      TitleIdempotent(AsText(raw[i].crop));
      TitleIdempotent(AsText(raw[i].market));
    }
  }

  /** Two kept rows whose crop and market differ only in letter case end up with
      the same crop and county, and so fall into the same selection. */
  lemma CaseInsensitiveGrouping(r1: RawRow, r2: RawRow)
    requires Keeps(r1) && Keeps(r2)
    requires SameIgnoringCase(AsText(r1.crop), AsText(r2.crop))
    requires SameIgnoringCase(AsText(r1.market), AsText(r2.market))
    ensures CleanRow(r1).value.crop == CleanRow(r2).value.crop
    ensures CleanRow(r1).value.county == CleanRow(r2).value.county
  {
    TitleIgnoresCase(AsText(r1.crop), AsText(r2.crop));
    TitleIgnoresCase(AsText(r1.market), AsText(r2.market));
  }

  function CropColumn(rows: seq<Row>): seq<string> {
    seq(|rows|, i requires 0 <= i < |rows| => rows[i].crop)
  }

  function CountyColumn(rows: seq<Row>): seq<string> {
    seq(|rows|, i requires 0 <= i < |rows| => rows[i].county)
  }

  function YearColumn(rows: seq<Row>): seq<int> {
    seq(|rows|, i requires 0 <= i < |rows| => rows[i].year)
  }

  /** `sorted(df['crop'].unique())` */
  function Crops(rows: seq<Row>): (r: seq<string>)
    ensures Ascending(r, LexLess)
    ensures forall v :: v in r <==> v in CropColumn(rows)
  {
    LexLessIsStrictTotal();
    SortedDistinct(CropColumn(rows), LexLess)
  }

  /** `sorted(df['county'].unique())` */
  function Counties(rows: seq<Row>): (r: seq<string>)
    ensures Ascending(r, LexLess)
    ensures forall v :: v in r <==> v in CountyColumn(rows)
  {
    LexLessIsStrictTotal();
    SortedDistinct(CountyColumn(rows), LexLess)
  }

  /** `sorted(df['year'].unique())` */
  function Years(rows: seq<Row>): (r: seq<int>)
    ensures Ascending(r, IntLess)
    ensures forall v :: v in r <==> v in YearColumn(rows)
  {
    IntLessIsStrictTotal();
    SortedDistinct(YearColumn(rows), IntLess)
  }

  /** The drop-down lists are strictly ascending, hold no duplicates, and hold
      exactly the values present in the rows. */
  lemma DropdownLists(rows: seq<Row>)
    ensures Ascending(Crops(rows), LexLess) && Distinct(Crops(rows))
    ensures Ascending(Counties(rows), LexLess) && Distinct(Counties(rows))
    ensures Ascending(Years(rows), IntLess) && Distinct(Years(rows))
    ensures forall c :: c in Crops(rows) <==> exists row :: row in rows && row.crop == c
    ensures forall c :: c in Counties(rows) <==> exists row :: row in rows && row.county == c
    ensures forall y :: y in Years(rows) <==> exists row :: row in rows && row.year == y
  {
    LexLessIsStrictTotal();
    IntLessIsStrictTotal();
    AscendingIsDistinct(Crops(rows), LexLess);
    AscendingIsDistinct(Counties(rows), LexLess);
    AscendingIsDistinct(Years(rows), IntLess);
    forall c ensures c in Crops(rows) <==> exists row :: row in rows && row.crop == c {
      if c in CropColumn(rows) {
        var i :| 0 <= i < |rows| && CropColumn(rows)[i] == c;
        assert rows[i] in rows;
      }
      if exists row :: row in rows && row.crop == c {
        var row :| row in rows && row.crop == c;
        var i :| 0 <= i < |rows| && rows[i] == row;
        assert CropColumn(rows)[i] == c;
      }
    }
    forall c ensures c in Counties(rows) <==> exists row :: row in rows && row.county == c {
      if c in CountyColumn(rows) {
        var i :| 0 <= i < |rows| && CountyColumn(rows)[i] == c;
        assert rows[i] in rows;
      }
      if exists row :: row in rows && row.county == c {
        var row :| row in rows && row.county == c;
        var i :| 0 <= i < |rows| && rows[i] == row;
        assert CountyColumn(rows)[i] == c;
      }
    }
    forall y ensures y in Years(rows) <==> exists row :: row in rows && row.year == y {
      if y in YearColumn(rows) {
        var i :| 0 <= i < |rows| && YearColumn(rows)[i] == y;
        assert rows[i] in rows;
      }
      if exists row :: row in rows && row.year == y {
        var row :| row in rows && row.year == y;
        var i :| 0 <= i < |rows| && rows[i] == row;
        assert YearColumn(rows)[i] == y;
      }
    }
  }

  /** The whole load section: column check, cleaning, drop-down lists. */
  method Load(header: seq<string>, raw: seq<RawRow>) returns (r: LoadResult)
    ensures r.MissingColumn? <==> exists c :: c in REQUIRED_COLUMNS && c !in LowerHeader(header)
    ensures r.MissingColumn? ==> r.name in REQUIRED_COLUMNS && r.name !in LowerHeader(header)
    ensures r.MissingColumn? ==>
      exists k :: 0 <= k < |REQUIRED_COLUMNS| && r.name == REQUIRED_COLUMNS[k]
        && forall j :: 0 <= j < k ==> REQUIRED_COLUMNS[j] in LowerHeader(header)
    ensures r.Loaded? ==> r.data.rows == Cleaned(raw)
    ensures r.Loaded? ==> r.data.crops == Crops(r.data.rows) && r.data.counties == Counties(r.data.rows)
    ensures r.Loaded? ==> r.data.years == Years(r.data.rows)
  {
    var missing := CheckColumns(header);
    if missing.Some? {
      return MissingColumn(missing.value);
    }
    var rows := CleanRows(raw);
    return Loaded(Dataset(rows, Crops(rows), Counties(rows), Years(rows)));
  }

  /** A row belongs to the (crop, county) selection. */
  predicate Matches(row: Row, crop: string, county: string) {
    row.crop == crop && row.county == county
  }

  /** `df[(df['crop'] == crop) & (df['county'] == county)]` */
  function Matching(rows: seq<Row>, crop: string, county: string): (s: seq<Row>)
    ensures |s| <= |rows|
    ensures forall row :: row in s <==> row in rows && Matches(row, crop, county)
  {
    if rows == [] then []
    else if Matches(rows[0], crop, county) then [rows[0]] + Matching(rows[1..], crop, county)
    else Matching(rows[1..], crop, county)
  }

  /** The selection keeps every matching row as often as the table holds it,
      so repeated sales count repeatedly in its length and in its means. */
  lemma {:induction false} MatchingMultiplicity(rows: seq<Row>, crop: string, county: string)
    ensures forall row :: multiset(Matching(rows, crop, county))[row]
                            == if Matches(row, crop, county) then multiset(rows)[row] else 0
  {
    if rows != [] {
      assert rows == [rows[0]] + rows[1..];
      MatchingMultiplicity(rows[1..], crop, county);
    }
  }

  /** The selection of a concatenation is the concatenation of the selections. */
  lemma {:induction false} MatchingAppend(a: seq<Row>, b: seq<Row>, crop: string, county: string)
    ensures Matching(a + b, crop, county) == Matching(a, crop, county) + Matching(b, crop, county)
  {
    if a != [] {
      assert (a + b)[1..] == a[1..] + b;
      MatchingAppend(a[1..], b, crop, county);
    } else {
      assert a + b == b;
    }
  }

  /** Rows of other crops or counties select nothing. */
  lemma {:induction false} MatchingNone(rows: seq<Row>, crop: string, county: string)
    requires forall row :: row in rows ==> !Matches(row, crop, county)
    ensures Matching(rows, crop, county) == []
  {
    if rows != [] {
      assert rows[0] in rows;
      MatchingNone(rows[1..], crop, county);
    }
  }
}
