/** Ordinal label encoding as scikit-learn's `LabelEncoder` performs it: the
    classes are the distinct values of the column in ascending order, and a
    value's code is its position among them. */
module Encoding {
  import opened Common
  import opened Ordering

  /** A fitted encoder: its classes in ascending string order. */
  datatype Encoder = Encoder(classes: seq<string>)

  /** `fit`: learn the classes of a column. */
  function Fit(column: seq<string>): (e: Encoder)
    ensures Ascending(e.classes, LexLess)
    ensures forall v :: v in e.classes <==> v in column
    ensures |e.classes| <= |column|
  {
    LexLessIsStrictTotal();
    Encoder(SortedDistinct(column, LexLess))
  }

  /** `transform` of one value: its position among the classes, or None
      (the library raises) for a value the encoder was not fitted on. */
  function Transform(e: Encoder, v: string): (code: Option<nat>)
    ensures code.Some? <==> v in e.classes
    ensures code.Some? ==> code.value < |e.classes| && e.classes[code.value] == v
  {
    if v in e.classes then Some(IndexOf(e.classes, v)) else None
  }

  /** `inverse_transform` of one code: the class at that position, or None
      for a code outside [0, number of classes). */
  function Inverse(e: Encoder, code: int): (v: Option<string>)
    ensures v.Some? <==> 0 <= code < |e.classes|
    ensures v.Some? ==> v.value == e.classes[code]
  {
    if 0 <= code < |e.classes| then Some(e.classes[code]) else None
  }

  /** `fit_transform`: fit on the column, then replace every value by its code. */
  function FitTransform(column: seq<string>): (codes: seq<nat>)
    ensures |codes| == |column|
  {
    var e := Fit(column);
    seq(|column|, i requires 0 <= i < |column| => IndexOf(e.classes, column[i]))
  }

  /** Every code lies in [0, k) for the k distinct values of the column, and
      there are never more classes than rows. */
  lemma CodesInRange(column: seq<string>)
    ensures forall i :: 0 <= i < |column| ==> FitTransform(column)[i] < |Fit(column).classes|
    ensures |Fit(column).classes| <= |column|
  {
  }

  /** Decoding a code by indexing the classes gives back the original value. */
  lemma DecodeRoundTrip(column: seq<string>)
    ensures forall i :: 0 <= i < |column| ==>
      Inverse(Fit(column), FitTransform(column)[i]) == Some(column[i])
  {
  }

  /** Encoding a class gives back its position: transform undoes inverse. */
  lemma EncodeRoundTrip(column: seq<string>, code: int)
    requires 0 <= code < |Fit(column).classes|
    ensures Transform(Fit(column), Fit(column).classes[code]) == Some(code)
  {
    var e := Fit(column);
    LexLessIsStrictTotal();
    var k := IndexOf(e.classes, e.classes[code]);
    AscendingPositions(e.classes, LexLess, k, code);
  }

  /** Two rows get the same code exactly when they hold the same value. */
  lemma CodesInjective(column: seq<string>, i: int, j: int)
    requires 0 <= i < |column| && 0 <= j < |column|
    ensures FitTransform(column)[i] == FitTransform(column)[j] <==> column[i] == column[j]
  {
  }

  /** Codes follow the order of the values. */
  lemma CodesOrderPreserving(column: seq<string>, i: int, j: int)
    requires 0 <= i < |column| && 0 <= j < |column|
    ensures FitTransform(column)[i] < FitTransform(column)[j] <==> LexLess(column[i], column[j])
  {
    var e := Fit(column);
    var codes := FitTransform(column);
    LexLessIsStrictTotal();
    AscendingPositions(e.classes, LexLess, codes[i], codes[j]);
  }

  /** No code is wasted: every position among the classes is the code of
      some row. */
  lemma EveryCodeUsed(column: seq<string>, code: int)
    requires 0 <= code < |Fit(column).classes|
    ensures exists i :: 0 <= i < |column| && FitTransform(column)[i] == code
  {
    var e := Fit(column);
    assert e.classes[code] in column;
    var i :| 0 <= i < |column| && column[i] == e.classes[code];
    EncodeRoundTrip(column, code);
    assert FitTransform(column)[i] == code;
  }

  /** The fitted encoder depends only on which values occur, not on their
      order or repetition in the column. */
  lemma FitIgnoresOrder(c1: seq<string>, c2: seq<string>)
    requires forall v :: v in c1 <==> v in c2
    ensures Fit(c1) == Fit(c2)
  {
    LexLessIsStrictTotal();
    AscendingUnique(Fit(c1).classes, Fit(c2).classes, LexLess);
  }
}
