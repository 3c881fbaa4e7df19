/** Strict total orders, ascending sequences and the "sorted distinct values"
    operation that both `sorted(col.unique())` and scikit-learn's label encoder
    perform. */
module Ordering {

  /** `lt` is irreflexive, transitive and total on distinct values. */
  ghost predicate StrictTotalOrder<T(!new)>(lt: (T, T) -> bool) {
    && (forall a :: !lt(a, a))
    && (forall a, b, c :: lt(a, b) && lt(b, c) ==> lt(a, c))
    && (forall a, b :: a != b ==> lt(a, b) || lt(b, a))
  }

  /** Strictly ascending under `lt`: every earlier element is below every later one. */
  ghost predicate Ascending<T>(s: seq<T>, lt: (T, T) -> bool) {
    forall i, j :: 0 <= i < j < |s| ==> lt(s[i], s[j])
  }

  /** No value occurs twice. */
  ghost predicate Distinct<T>(s: seq<T>) {
    forall i, j :: 0 <= i < j < |s| ==> s[i] != s[j]
  }

  /** Numeric order on integers (years). */
  predicate IntLess(a: int, b: int) {
    a < b
  }

  /** Python's string order: lexicographic on code points, a proper prefix first. */
  predicate LexLess(a: string, b: string) {
    if |a| == 0 then |b| > 0
    else if |b| == 0 then false
    else if a[0] < b[0] then true
    else if a[0] == b[0] then LexLess(a[1..], b[1..])
    else false
  }

  lemma IntLessIsStrictTotal()
    ensures StrictTotalOrder(IntLess)
  {
  }

  lemma {:induction false} LexIrreflexive(a: string)
    ensures !LexLess(a, a)
  {
    if |a| > 0 {
      LexIrreflexive(a[1..]);
    }
  }

  lemma {:induction false} LexTransitive(a: string, b: string, c: string)
    requires LexLess(a, b) && LexLess(b, c)
    ensures LexLess(a, c)
  {
    if |a| > 0 && |b| > 0 && |c| > 0 && a[0] == b[0] == c[0] {
      LexTransitive(a[1..], b[1..], c[1..]);
    }
  }

  lemma {:induction false} LexTotal(a: string, b: string)
    requires a != b
    ensures LexLess(a, b) || LexLess(b, a)
  {
    if |a| > 0 && |b| > 0 && a[0] == b[0] {
      assert a == [a[0]] + a[1..] && b == [b[0]] + b[1..];
      LexTotal(a[1..], b[1..]);
    }
  }

  lemma LexLessIsStrictTotal()
    ensures StrictTotalOrder(LexLess)
  {
    forall a: string ensures !LexLess(a, a) {
      LexIrreflexive(a);
    }
    forall a: string, b: string, c: string | LexLess(a, b) && LexLess(b, c)
      ensures LexLess(a, c)
    {
      LexTransitive(a, b, c);
    }
    forall a: string, b: string | a != b ensures LexLess(a, b) || LexLess(b, a) {
      LexTotal(a, b);
    }
  }

  /** Under a strict total order, ascending implies duplicate-free, and the
      order of two elements is exactly the order of their positions. */
  lemma AscendingPositions<T(!new)>(s: seq<T>, lt: (T, T) -> bool, i: int, j: int)
    requires StrictTotalOrder(lt) && Ascending(s, lt)
    requires 0 <= i < |s| && 0 <= j < |s|
    ensures lt(s[i], s[j]) <==> i < j
    ensures s[i] == s[j] <==> i == j
  {
    if j < i {
      assert lt(s[j], s[i]);
    }
  }

  lemma AscendingIsDistinct<T(!new)>(s: seq<T>, lt: (T, T) -> bool)
    requires StrictTotalOrder(lt) && Ascending(s, lt)
    ensures Distinct(s)
  {
  }

  /** Inserts `x` into the ascending `s` unless it is already there. */
  function Insert<T(!new,==)>(x: T, s: seq<T>, lt: (T, T) -> bool): (r: seq<T>)
    requires StrictTotalOrder(lt) && Ascending(s, lt)
    ensures Ascending(r, lt)
    ensures forall v :: v in r <==> v == x || v in s
    ensures |r| <= |s| + 1
  {
    if s == [] then [x]
    else if x == s[0] then s
    else if lt(x, s[0]) then
      AscendingCons(x, s, lt);
      [x] + s
    else
      var rest := Insert(x, s[1..], lt);
      AscendingCons(s[0], rest, lt);
      [s[0]] + rest
  }

  /** Putting a value below every element in front keeps a sequence ascending. */
  lemma AscendingCons<T(!new)>(h: T, s: seq<T>, lt: (T, T) -> bool)
    requires StrictTotalOrder(lt) && Ascending(s, lt)
    requires forall v :: v in s ==> lt(h, v)
    ensures Ascending([h] + s, lt)
  {
    var r := [h] + s;
    forall i, j | 0 <= i < j < |r| ensures lt(r[i], r[j]) {
      assert r[j] == s[j - 1];
      if i > 0 {
        assert r[i] == s[i - 1];
      }
    }
  }

  /** The distinct values of `xs` in ascending order. */
  function SortedDistinct<T(!new,==)>(xs: seq<T>, lt: (T, T) -> bool): (r: seq<T>)
    requires StrictTotalOrder(lt)
    ensures Ascending(r, lt)
    ensures forall v :: v in r <==> v in xs
    ensures |r| <= |xs|
  {
    if xs == [] then []
    else Insert(xs[0], SortedDistinct(xs[1..], lt), lt)
  }

  /** Position of `x` in `s`. */
  function IndexOf<T(==)>(s: seq<T>, x: T): (k: nat)
    requires x in s
    ensures k < |s| && s[k] == x
    ensures forall j :: 0 <= j < k ==> s[j] != x
  {
    if s[0] == x then 0 else 1 + IndexOf(s[1..], x)
  }

  /** Two ascending sequences with the same elements are the same sequence:
      the enumeration order depends only on the set of values. */
  lemma {:induction false} AscendingUnique<T(!new)>(s: seq<T>, t: seq<T>, lt: (T, T) -> bool)
    requires StrictTotalOrder(lt) && Ascending(s, lt) && Ascending(t, lt)
    requires forall v :: v in s <==> v in t
    ensures s == t
  {
    assert s != [] ==> s[0] in t;
    assert t != [] ==> t[0] in s;
    if s != [] && t != [] {
      forall v ensures v in s[1..] <==> v in t[1..] {
        if v in s[1..] {
          var i :| 1 <= i < |s| && s[i] == v;
          AscendingPositions(s, lt, 0, i);
          assert v in t && v != t[0];
          var j :| 0 <= j < |t| && t[j] == v;
          assert j != 0;
          assert t[1..][j - 1] == v;
        }
        if v in t[1..] {
          var j :| 1 <= j < |t| && t[j] == v;
          AscendingPositions(t, lt, 0, j);
          assert v in s && v != s[0];
          var i :| 0 <= i < |s| && s[i] == v;
          assert i != 0;
          assert s[1..][i - 1] == v;
        }
      }
      AscendingUnique(s[1..], t[1..], lt);
      assert s == [s[0]] + s[1..] && t == [t[0]] + t[1..];
    }
  }
}
