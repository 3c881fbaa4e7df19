# Crop price model

A crop-price web application and its training script, modelled in Dafny.

The application loads a table of market prices, one row per sale: date, market, crop and price. It cleans the table and fills its drop-down lists from it. It then serves three pages:

- a price prediction: a straight line of price against year, fitted to the rows of one crop in one county and read off at a requested year;
- a trend page: the mean price per year for one crop in one county;
- a comparison page: two such yearly series side by side.

The training script prepares a table for a regression forest:

- crop and market become ordinal label codes;
- dates become whole days since the earliest date;
- the five feature columns are selected.

The model covers that arithmetic over exact numbers: `int` for years, days and codes, and `real` for prices.

| file | module | what it holds |
|---|---|---|
| `common.dfy` | `Common` | `Option`, one real-number step lemma |
| `ordering.dfy` | `Ordering` | strict total orders, Python's string order, sorted distinct values, `IndexOf` |
| `text.dfy` | `Text` | `str.lower()` and `str.title()` on ASCII letters |
| `calendar.dfy` | `Calendar` | validated (day, month, year) dates, day numbers, date order, stepping days |
| `dataset.dfy` | `Dataset` | the load section of `app.py`: column check, cleaning, drop-down lists, crop/county selection |
| `prediction.dfy` | `Prediction` | the `predict` route: threshold, closed-form least squares, rounding to cents |
| `trends.dfy` | `Trends` | the `trends` and `compare` routes: yearly means, default selections |
| `encoding.dfy` | `Encoding` | the label encoder: fit, transform, inverse, fit-transform |
| `training.dfy` | `Training` | the training script's frame: encoding loop, date conversion, feature matrix |

The load section of `app.py` and the training script change their table step by step. They are modelled as methods:

- `Dataset.CheckColumns`, `Dataset.CleanRows` and `Dataset.Load`;
- the class `Training.TrainingFrame`, whose `columns` map is reassigned column by column.

`Dataset.CheckColumns` states its result directly, as the first missing required column. Every other method is proved equal to a specification function. The routes `predict`, `trends` and `compare` are pure filters, group-by means and a closed-form fit, so they are modelled as functions with lemmas.

## Model

| member | source | states |
|---|---|---|
| Dataset.CheckColumns | app.py:67-72 | reports no missing column exactly when every required column is in the lower-cased header; otherwise it names the first required column that is missing |
| Dataset.ParseDate | app.py:74 | an empty cell or an impossible calendar date becomes "not a time"; a valid date is kept as it is |
| Dataset.CleanRow | app.py:74-80 | a row survives exactly when its date parses and its price is present; a kept row carries its date and price, the year of its date, the title-cased crop, and the title-cased market as county |
| Dataset.AsText | app.py:78-79 | `astype(str)`: an empty cell reads as "nan", and any other cell as its text |
| Dataset.KeptIndices | app.py:75-80 | the positions of the kept raw rows, strictly ascending, each a kept row, and every kept row's position among them |
| Dataset.Cleaned | app.py:74-80 | the cleaned table is no longer than the raw table |
| Dataset.CleanedInOrder | app.py:74-80 | the cleaned table has one row per kept raw row, in table order: its k-th row is the cleaned form of the k-th kept raw row, so duplicates keep their multiplicity |
| Dataset.CleanRows | app.py:74-80 | the cleaning pass over the table returns exactly the cleaned table |
| Dataset.CleanedRows | app.py:74-80 | a row is in the cleaned table if and only if it is the cleaned form of some kept raw row |
| Dataset.CleanedRowsWellFormed | app.py:74-80 | every cleaned row's year is its date's year, and its crop and county are already in title case |
| Dataset.CaseInsensitiveGrouping | app.py:78-79 | two kept rows whose crop and market differ only in letter case get the same crop and the same county |
| Dataset.Crops | app.py:83 | the crop list is strictly ascending in string order and holds exactly the crops of the rows |
| Dataset.Counties | app.py:84 | the county list is strictly ascending in string order and holds exactly the counties of the rows |
| Dataset.Years | app.py:85 | the year list is strictly ascending and holds exactly the years of the rows |
| Dataset.DropdownLists | app.py:83-85 | the crop, county and year lists are strictly ascending and duplicate-free; each holds exactly the values present in the cleaned rows |
| Dataset.Load | app.py:66-85 | a missing required column stops loading and the first one missing, in the order date, market, crop, price, is named; otherwise the table is the cleaned table and the lists are its sorted distinct crops, counties and years |
| Dataset.Matching | app.py:160 | the selection holds exactly the rows of the given crop and county, and is no longer than the table |
| Dataset.MatchingMultiplicity | app.py:160 | each row of the given crop and county occurs in the selection as often as in the table; any other row does not occur |
| Dataset.MatchingAppend | app.py:160 | selecting from a concatenation is concatenating the selections |
| Dataset.MatchingNone | app.py:160 | rows of other crops or counties select nothing |
| Text.Lower | app.py:67 | `str.lower()`: same length, no upper-case letter left, each character equal to the original up to case, and every non-letter kept |
| Text.Title | app.py:78-79 | `str.title()`: same length, each character equal to the original up to case, a letter upper case exactly when it is the first character or the character before it is not a letter, and every non-letter kept |
| Text.TitleIdempotent | app.py:78-79 | title case applied twice is title case applied once |
| Text.TitleIgnoresCase | app.py:78-79 | two texts have the same title case if and only if they differ only in letter case |
| Text.LowerOfTitle | app.py:78-79 | title case keeps the text up to letter case |
| Ordering.LexLessIsStrictTotal | app.py:83-84 | Python's string order is irreflexive, transitive and total |
| Ordering.SortedDistinct | app.py:83-85 | sorting the distinct values gives an ascending list holding exactly the values of the column |
| Ordering.AscendingUnique | app.py:83-85 | two ascending lists with the same values are the same list, so the order depends only on the set of values |
| Prediction.MeanPrice | app.py:165-166 | the mean price times the number of rows is the sum of the prices |
| Prediction.FitLine | app.py:165-166 | the fitted line meets both normal equations of least squares: it passes through (mean year, mean price), and its slope times the spread of the years is the cross deviation; with no spread the line is flat |
| Prediction.Predict | app.py:157-169 | a missing year gives the failure outcome; otherwise "not enough history" exactly when fewer than two rows match crop and county, and with two or more the price is the fitted least-squares line of the matching rows at the requested year, rounded to cents |
| Prediction.PredictIgnoresOtherRows | app.py:160-169 | rows of other crops or counties, wherever they sit in the table, never change a prediction |
| Prediction.RoundHalfEven | app.py:167 | the result is within one half of the value, and a tie goes to the even integer |
| Prediction.RoundCents | app.py:167 | the result is a whole number of cents within half a cent of the value |
| Prediction.RoundCentsExact | app.py:167 | a value that is already a whole number of cents is unchanged |
| Prediction.SumSquaredDeviationNonNegative | app.py:165-166 | the spread of the years about any centre is never negative |
| Prediction.ZeroSpread | app.py:165-166 | a zero spread means every year equals the centre |
| Prediction.SpreadNonZero | app.py:165-166 | two different years give a nonzero spread, so the slope's division is defined |
| Prediction.MeanPriceOnLine | app.py:165-166 | prices on a line have their mean on that line at the mean year |
| Prediction.CrossDeviationOnLine | app.py:165-166 | for prices on a line, the cross deviation is the slope times the spread |
| Prediction.LineFromMomentsOnLine | app.py:165-166 | the closed-form slope and intercept computed from the moments of points on a line give back that line |
| Prediction.SameYearFit | app.py:162-166 | rows all in one year give the flat line at their mean price |
| Prediction.SameYearPredictsMean | app.py:160-167 | when every matching row has the same year, the prediction is the mean price rounded to cents, whatever year is asked |
| Prediction.ExactFit | app.py:163-166 | rows lying exactly on a line through at least two years are fitted by that line |
| Prediction.PredictOnLine | app.py:160-167 | with two or more matching rows on a line through two years, the prediction is that line at the requested year, rounded to cents |
| Prediction.TwoYearExample | app.py:160-167 | rows (2021, 30) and (2022, 40) give 50.0 for 2023 and 20.0 for 2020 |
| Trends.InYear | app.py:190 | a year's group holds exactly the rows of that year, and is no longer than the table |
| Trends.InYearMultiplicity | app.py:190 | each row of the year occurs in its group as often as in the table, so repeated sales are counted in the mean; rows of other years do not occur |
| Trends.Yearly | app.py:190 | one point per distinct year, in the order of the year list; each point's mean is the mean price of that year's rows |
| Trends.YearlyAscending | app.py:190 | the years of a series strictly ascend |
| Trends.YearlyCoversYears | app.py:190 | every point's year occurs in the rows, and every row's year has a point |
| Trends.MeanPriceWithin | app.py:190 | the mean of prices in [lo, hi] lies in [lo, hi] |
| Trends.YearMeanWithin | app.py:190 | a year's mean lies between the lowest and the highest price of that year |
| Trends.Trend | app.py:186-190 | no series exactly when no row matches crop and county; a series is never empty |
| Trends.TrendSpec | app.py:186-190 | a trend's years ascend, each is the year of a matching row, every matching row's year is present, and each mean is the mean of the matching rows of that year |
| Trends.Compare | app.py:222-228 | output exactly when both crops have matching rows; the two series are the two crops' trends |
| Trends.CompareIndependent | app.py:222-228 | the first series does not depend on the second crop |
| Trends.CompareExample | app.py:222-228 | two series can differ in length and in years: (2020, 30), (2021, 45) beside (2021, 90) |
| Trends.OrElse | app.py:183-184 | `field or fallback`: a non-empty form value wins; otherwise the fallback is used |
| Trends.Nth | app.py:183-184 | indexing a list gives a value exactly when the index is within the list |
| Trends.TrendsRoute | app.py:183-190 | the page fails exactly when a field is empty and its default list is empty; otherwise the crop is the form's crop or else the first crop, the county the form's county or else the first county, and the page shows their trend |
| Trends.SecondCropDefault | app.py:219 | the second crop's default exists exactly when the crop list is non-empty, and it is the second crop when there are two or more and otherwise the first |
| Trends.CompareRoute | app.py:218-228 | the page fails exactly when an empty field's default list is empty; otherwise the first crop is the form's or else the first crop, the second crop the form's or else the second crop (the first when there is only one), the county the form's or else the first county, and the page shows their comparison |
| Trends.DefaultSelections | app.py:218-220 | with every field empty the pages use the first crop, the second crop (or the first when there is only one) and the first county |
| Trends.GivenFieldsWin | app.py:183-184 | a crop and county picked in the form are used as they are |
| Encoding.Fit | train_model.py:16-17 | the classes are ascending, no longer than the column, and hold exactly the column's values |
| Encoding.Transform | train_model.py:17 | an unseen value has no code; a seen value's code is its position among the classes |
| Encoding.Inverse | train_model.py:17 | a code decodes exactly when it lies in [0, number of classes), and then to the class at that position |
| Encoding.FitTransform | train_model.py:17 | one code per row; what the codes mean is stated by CodesInRange, DecodeRoundTrip, CodesInjective and CodesOrderPreserving |
| Encoding.CodesInRange | train_model.py:15-18 | every code lies in [0, k) for the k distinct values, and k is at most the number of rows |
| Encoding.DecodeRoundTrip | train_model.py:16-18 | decoding each row's code gives back that row's value |
| Encoding.EncodeRoundTrip | train_model.py:16-18 | encoding the class at a position gives back that position |
| Encoding.CodesInjective | train_model.py:16-17 | two rows get the same code if and only if they hold the same value |
| Encoding.CodesOrderPreserving | train_model.py:16-17 | one code is below another if and only if its value is below the other in string order |
| Encoding.EveryCodeUsed | train_model.py:16-17 | every position among the classes is the code of some row |
| Encoding.FitIgnoresOrder | train_model.py:16-17 | the encoder depends only on which values occur, not on their order or repetition |
| Training.Encoded | train_model.py:15-17 | every listed column becomes the codes of its values, and every other column is unchanged |
| Training.Encoders | train_model.py:14-18 | the encoder map has exactly the listed columns, each fitted to that column |
| Training.EncodedStep | train_model.py:15-18 | one more loop iteration extends the table and the encoders by one column alone |
| Training.EncodeColumns | train_model.py:14-18 | the loop over the listed columns yields exactly the encoded table and the map of fitted encoders |
| Training.TrainingFrame.constructor | train_model.py:11 | the frame holds the table as read, with no encoders and no minimum date yet |
| Training.TrainingFrame.EncodeCategoricals | train_model.py:14-18 | the crop and market columns become their codes; the encoders are those two fitted encoders; the table keeps its height |
| Training.ParseDates | train_model.py:21 | parsing succeeds exactly when every cell is a calendar date, and then it yields the cells as dates |
| Training.Earliest | train_model.py:22 | `min()` of a non-empty column is one of its dates |
| Training.MinDate | train_model.py:22 | `min()` is none exactly for an empty column; otherwise it is a date of the column that no date of the column is before |
| Training.MinOf | train_model.py:22 | the scan returns the earliest date, or none for an empty column |
| Training.OffsetsFrom | train_model.py:23 | one offset per row |
| Training.OffsetsFromMeaning | train_model.py:23 | an offset is negative exactly for a date before the base; otherwise stepping that many days forward from the base reaches the row's date |
| Training.Offsets | train_model.py:22-23 | one offset per row; that they are measured from the earliest date is stated by OffsetZeroAtEarliest and OffsetDifference |
| Training.DayOffsets | train_model.py:23 | each row's value is the number of days from the base date to the row's date |
| Training.MinAndOffsets | train_model.py:22-23 | yields `date_min` and the day offsets from it, as MinDate and Offsets define them |
| Training.TrainingFrame.ConvertDates | train_model.py:21-23 | fails exactly when a date is invalid, and then changes nothing; otherwise the minimum is recorded and the date column becomes the day offsets from it |
| Training.EarliestIsLeast | train_model.py:22 | no date of the column has a smaller day number than the earliest date |
| Training.EarliestIsMinimum | train_model.py:22 | no date of the column is before the earliest date |
| Training.OffsetsNonNegative | train_model.py:23 | no day offset is negative |
| Training.OffsetZeroAtEarliest | train_model.py:22-23 | a row's offset is 0 exactly when it carries the earliest date |
| Training.OffsetsPreserveOrder | train_model.py:23 | one date is before another if and only if its offset is smaller; equal offsets mean equal dates |
| Training.OffsetDifference | train_model.py:23 | stepping the difference of two offsets forward from the earlier date reaches the later date |
| Training.Select | train_model.py:26 | the selection has one row per table row and one value per selected column |
| Training.Prepared | train_model.py:14-23 | after encoding and date conversion, the five feature columns are present and numeric |
| Training.PreparedNumeric | train_model.py:14-23 | every feature column of the prepared table is numeric and of the table's height |
| Training.EncodedFeatureColumns | train_model.py:15-17 | encoding turns crop and market into their codes and leaves rainfall and temperature as they were |
| Training.Features | train_model.py:26 | the feature matrix has one row per table row and five values per row |
| Training.FeatureRows | train_model.py:26 | every feature row is exactly [date offset, crop code, market code, rainfall, temperature] of its table row |
| Training.TrainingFrame.Prepare | train_model.py:14-27 | fails exactly when a date is invalid; otherwise `X` is the feature matrix of the original table, `y` its price column (whole-number or real) read as reals, the encoders and minimum date are recorded, and the frame keeps its height and holds the prepared table (codes and day offsets) |
| Calendar.DayNumber | train_model.py:23 | days from civil: 0001-01-01 is day 1 and every other date has a larger number; its calendar meaning is stated by DayNumberNext, DayNumberAddDays, DayNumberOrder and DaysBetween |
| Calendar.DayNumberNext | train_model.py:23 | the day number advances by exactly one from a date to the next |
| Calendar.DayNumberAddDays | train_model.py:23 | stepping n days forward adds n to the day number |
| Calendar.DayNumberOrder | train_model.py:22-23 | day numbers follow calendar order, and equal day numbers mean the same date |
| Calendar.DaysBetween | train_model.py:23 | the difference of two day numbers is the number of days from one date to the other |

## Left out

- Web plumbing is not modelled: Flask routing, templates, redirects, flash messages, sessions, the login manager, the user table, registration, password checks, SQLAlchemy and the WTForms classes. A form field arrives as `Option<string>`; None stands for a field that is absent.
- Prediction.Predict: the year field is modelled as `Option<int>`, and None gives the failure outcome. In the application a missing or non-integer year, and also the year 0, fails the form's own validation (app.py:153), and the page then shows no price at all. Form validation is not modelled. The `except` branch (app.py:171-173) is reached in the application only by errors inside the fit, such as a non-numeric price column, which the model's types rule out.
- Plotting and base64 chart encoding are not modelled. The pages stop at the numeric (year, mean) series.
- File reading is not modelled: `os.path.exists`, `read_csv` and the pickled files. A table arrives as a sequence of rows or as a map of columns.
- Only day-first (day, month, year) dates are modelled, with a calendar check. A date cell arrives as the fields read from it. Full `to_datetime` format inference and the library's date range are not modelled. In the application an empty or impossible date is dropped. In the training script a malformed date stops the script.
- Dataset.ParseDate: the application calls `to_datetime` without `dayfirst`, so pandas reads an ambiguous cell such as 03/04/2021 month first. The training script reads day first. Both parsers receive the cell as the (day, month, year) fields already read from it, so the two reading orders are not distinguished.
- Training: the training columns are modelled without missing cells. An empty date cell becomes NaT in the script, `min()` skips it and its offset is NaN. An empty categorical or numeric cell would likewise become NaN. None of these is modelled.
- Case mapping is modelled on ASCII letters only. Non-ASCII case rules of `str.title()` are not modelled.
- Arithmetic is exact: prices are reals and years are unbounded integers. Binary floating point is not modelled, either in the least-squares solve or in `round`, which rounds half to even on the exact value.
- Prediction.ExactFit: that the line satisfying the normal equations (proved for Prediction.FitLine) minimises the squared error is not proved. The proved properties are the normal equations, that points on a line through two or more years are fitted exactly, and that rows all in one year give the flat line at the mean price.
- Prediction.FitLine: when every row has the same year, the slope is 0 and the intercept is the mean price. This is the minimum-norm answer of the library's least-squares solve, and the closed-form division is undefined there.
- Trends.YearMean: its properties are stated by Prediction.MeanPrice (mean times count is the sum), Trends.YearMeanWithin and Trends.TrendSpec, not by an `ensures` of its own.
- Training.TrainingFrame.Prepare: the regression forest, its fitting, and the `joblib` persistence of the model, the encoders and `date_min` are not modelled. The model stops at `X` and `y`.
- Training.TrainingFrame.Prepare: the crop and market columns must be text. `LabelEncoder` also encodes a numeric crop or market column, ordering its values as numbers; that case is not modelled.
- Training: the columns are keyed by a datatype of header names (the six the script uses, and any other header).
- The training script's crash on a missing column is modelled as a precondition of `Training.TrainingFrame.Prepare`. So is its crash on a non-numeric rainfall or temperature column.
