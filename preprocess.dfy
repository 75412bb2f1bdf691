/**
 * `infer_column_types`: split the columns of a training frame into numeric
 * columns, categorical columns to one-hot encode, and text columns dropped
 * because they look like identifiers.
 */
module Preprocess {

  /** The pandas dtype families `select_dtypes` distinguishes here. */
  datatype DType = Number | Object | Category | Bool | Datetime | OtherDType

  /**
   * A column of the frame: its label, its dtype and the number of
   * distinct non-null values it holds (`nunique(dropna=True)`).
   */
  datatype Column = Column(name: string, dtype: DType, nunique: nat)

  /** Default `high_cardinality_threshold`. */
  const HighCardinalityThreshold: int := 1000
  /** Default `id_like_ratio`. */
  const IdLikeRatio: real := 0.9

  predicate IsNumeric(c: Column) { c.dtype == Number }

  predicate IsObjectLike(c: Column) { c.dtype == Object || c.dtype == Category }

  /** `max(1, len(df))`. */
  function RowCount(rows: nat): (n: nat)
    ensures n >= 1 && n >= rows
    ensures rows >= 1 ==> n == rows
    ensures rows == 0 ==> n == 1
  {
    if rows >= 1 then rows else 1
  }

  /** The drop test for one object-like column, with the ratio as a real division. */
  predicate ShouldDrop(c: Column, rows: nat, threshold: int, ratio: real)
  {
    c.nunique > threshold || (c.nunique as real) / (RowCount(rows) as real) > ratio
  }

  /** The ratio test is the same as comparing the distinct count with `ratio` times the row count. */
  lemma ShouldDropByProduct(c: Column, rows: nat, threshold: int, ratio: real)
    ensures ShouldDrop(c, rows, threshold, ratio) <==>
      c.nunique > threshold || c.nunique as real > ratio * (RowCount(rows) as real)
  {
    var n := RowCount(rows) as real;
    var u := c.nunique as real;
    assert u / n * n == u;
    if u / n > ratio {
      assert u / n * n > ratio * n;
    } else {
      assert u / n * n <= ratio * n;
    }
  }

  /** A column with no non-null values is never dropped under non-negative limits. */
  lemma EmptyColumnKept(c: Column, rows: nat, threshold: int, ratio: real)
    requires c.nunique == 0 && threshold >= 0 && ratio >= 0.0
    ensures !ShouldDrop(c, rows, threshold, ratio)
  {
  }
  /** Under the defaults, an empty column is kept. */
  lemma EmptyColumnKeptByDefault(c: Column, rows: nat)
    requires c.nunique == 0
    ensures !ShouldDrop(c, rows, HighCardinalityThreshold, IdLikeRatio)
  {
    EmptyColumnKept(c, rows, HighCardinalityThreshold, IdLikeRatio);
  }

  /** Under the defaults, a column whose every row holds a distinct value looks like an identifier and is dropped. */
  lemma IdColumnDroppedByDefault(c: Column, rows: nat)
    requires rows >= 1 && c.nunique == rows
    ensures ShouldDrop(c, rows, HighCardinalityThreshold, IdLikeRatio)
  {
    var n := rows as real;
    assert RowCount(rows) as real == n;
    assert n / n == 1.0;
  }


  /** `select_dtypes(include=[np.number])`, in frame order. */
  function NumericColumns(cols: seq<Column>): (r: seq<Column>)
    ensures forall k :: 0 <= k < |r| ==> IsNumeric(r[k])
  {
    if cols == [] then []
    else
      var c := cols[|cols| - 1];
      NumericColumns(cols[..|cols| - 1]) + (if IsNumeric(c) then [c] else [])
  }

  /** `select_dtypes(include=["object", "category"])`, in frame order. */
  function ObjectColumns(cols: seq<Column>): (r: seq<Column>)
    ensures forall k :: 0 <= k < |r| ==> IsObjectLike(r[k])
  {
    if cols == [] then []
    else
      var c := cols[|cols| - 1];
      ObjectColumns(cols[..|cols| - 1]) + (if IsObjectLike(c) then [c] else [])
  }

  /** The object-like columns kept as categorical, in frame order. */
  function KeptColumns(cols: seq<Column>, rows: nat, threshold: int, ratio: real): seq<Column>
  {
    if cols == [] then []
    else
      var c := cols[|cols| - 1];
      KeptColumns(cols[..|cols| - 1], rows, threshold, ratio) +
        (if IsObjectLike(c) && !ShouldDrop(c, rows, threshold, ratio) then [c] else [])
  }

  /** The object-like columns dropped, in frame order. */
  function DroppedColumns(cols: seq<Column>, rows: nat, threshold: int, ratio: real): seq<Column>
  {
    if cols == [] then []
    else
      var c := cols[|cols| - 1];
      DroppedColumns(cols[..|cols| - 1], rows, threshold, ratio) +
        (if IsObjectLike(c) && ShouldDrop(c, rows, threshold, ratio) then [c] else [])
  }

  /** `.columns.tolist()` of a selection: the labels, in order. */
  function Names(cols: seq<Column>): (r: seq<string>)
    ensures |r| == |cols|
    ensures forall k :: 0 <= k < |cols| ==> r[k] == cols[k].name
  {
    if cols == [] then [] else [cols[0].name] + Names(cols[1..])
  }

  lemma NamesSnoc(cols: seq<Column>, c: Column)
    ensures Names(cols + [c]) == Names(cols) + [c.name]
  {
  }

  /** Deciding the next object-like column adds it to exactly the list the drop test names. */
  lemma DecideNext(objs: seq<Column>, i: nat, rows: nat, threshold: int, ratio: real)
    requires i < |objs| && IsObjectLike(objs[i])
    ensures var c := objs[i];
      var drop := ShouldDrop(c, rows, threshold, ratio);
      KeptColumns(objs[..i + 1], rows, threshold, ratio) ==
        KeptColumns(objs[..i], rows, threshold, ratio) + (if drop then [] else [c]) &&
      DroppedColumns(objs[..i + 1], rows, threshold, ratio) ==
        DroppedColumns(objs[..i], rows, threshold, ratio) + (if drop then [c] else [])
  {
    assert objs[..i + 1][..i] == objs[..i];
  }

  /**
   * `infer_column_types(df, high_cardinality_threshold, id_like_ratio)`
   * for a frame with columns `cols` and `rows` rows.
   */
  method InferColumnTypes(cols: seq<Column>, rows: nat, threshold: int, ratio: real)
    returns (numericCols: seq<string>, categoricalCols: seq<string>, droppedCols: seq<string>)
    ensures numericCols == Names(NumericColumns(cols))
    ensures categoricalCols == Names(KeptColumns(cols, rows, threshold, ratio))
    ensures droppedCols == Names(DroppedColumns(cols, rows, threshold, ratio))
  {
    var nRows := if rows >= 1 then rows else 1;
    numericCols := Names(NumericColumns(cols));
    var objCols := ObjectColumns(cols);
    droppedCols := [];
    categoricalCols := [];
    for i := 0 to |objCols|
      invariant droppedCols == Names(DroppedColumns(objCols[..i], rows, threshold, ratio))
      invariant categoricalCols == Names(KeptColumns(objCols[..i], rows, threshold, ratio))
    {
      var col := objCols[i];
      var nunique := col.nunique;
      var r := (nunique as real) / (nRows as real);
      DecideNext(objCols, i, rows, threshold, ratio);
      if nunique > threshold || r > ratio {
        NamesSnoc(DroppedColumns(objCols[..i], rows, threshold, ratio), col);
        droppedCols := droppedCols + [col.name];
      } else {
        NamesSnoc(KeptColumns(objCols[..i], rows, threshold, ratio), col);
        categoricalCols := categoricalCols + [col.name];
      }
    }
    assert objCols[..|objCols|] == objCols;
    SelectionOfObjectColumns(cols, rows, threshold, ratio);
  }

  /** Keeping or dropping among the object-like columns gives what it gives among all columns. */
  lemma {:induction false} SelectionOfObjectColumns(cols: seq<Column>, rows: nat, threshold: int, ratio: real)
    ensures KeptColumns(ObjectColumns(cols), rows, threshold, ratio) == KeptColumns(cols, rows, threshold, ratio)
    ensures DroppedColumns(ObjectColumns(cols), rows, threshold, ratio) == DroppedColumns(cols, rows, threshold, ratio)
  {
    if cols != [] {
      var init, c := cols[..|cols| - 1], cols[|cols| - 1];
      var objs := ObjectColumns(init);
      SelectionOfObjectColumns(init, rows, threshold, ratio);
      if IsObjectLike(c) {
        assert ObjectColumns(cols) == objs + [c];
        assert (objs + [c])[..|objs|] == objs;
        assert KeptColumns(objs + [c], rows, threshold, ratio) ==
          KeptColumns(objs, rows, threshold, ratio) + (if ShouldDrop(c, rows, threshold, ratio) then [] else [c]);
        assert DroppedColumns(objs + [c], rows, threshold, ratio) ==
          DroppedColumns(objs, rows, threshold, ratio) + (if ShouldDrop(c, rows, threshold, ratio) then [c] else []);
      } else {
        assert ObjectColumns(cols) == objs;
        assert KeptColumns(cols, rows, threshold, ratio) == KeptColumns(init, rows, threshold, ratio);
        assert DroppedColumns(cols, rows, threshold, ratio) == DroppedColumns(init, rows, threshold, ratio);
      }
    }
  }

  /**
   * Where a column ends up: in the numeric list exactly when it is
   * numeric, in the categorical list exactly when it is object-like and
   * passes the drop test, in the dropped list exactly when it is
   * object-like and fails it.
   */
  lemma {:induction false} Placement(cols: seq<Column>, rows: nat, threshold: int, ratio: real, c: Column)
    ensures c in NumericColumns(cols) <==> c in cols && IsNumeric(c)
    ensures c in KeptColumns(cols, rows, threshold, ratio) <==>
      c in cols && IsObjectLike(c) && !ShouldDrop(c, rows, threshold, ratio)
    ensures c in DroppedColumns(cols, rows, threshold, ratio) <==>
      c in cols && IsObjectLike(c) && ShouldDrop(c, rows, threshold, ratio)
  {
    if cols != [] {
      var init := cols[..|cols| - 1];
      Placement(init, rows, threshold, ratio, c);
      assert cols == init + [cols[|cols| - 1]];
    }
  }

  /** Every object-like column is categorical or dropped, and each copy goes to exactly one of the two. */
  lemma {:induction false} ObjectColumnsPartitioned(cols: seq<Column>, rows: nat, threshold: int, ratio: real)
    ensures multiset(KeptColumns(cols, rows, threshold, ratio)) + multiset(DroppedColumns(cols, rows, threshold, ratio))
      == multiset(ObjectColumns(cols))
  {
    if cols != [] {
      ObjectColumnsPartitioned(cols[..|cols| - 1], rows, threshold, ratio);
    }
  }

  /** `a` is `b` with some elements left out, the rest in their order. */
  predicate IsSubsequence<T(==)>(a: seq<T>, b: seq<T>)
  {
    if b == [] then a == []
    else
      IsSubsequence(a, b[..|b| - 1]) ||
      (a != [] && a[|a| - 1] == b[|b| - 1] && IsSubsequence(a[..|a| - 1], b[..|b| - 1]))
  }

  /** Extending a selection by the next column, or not, keeps it a subsequence of the columns seen. */
  lemma SnocKeepsOrder<T>(a: seq<T>, b: seq<T>, x: T, take: bool)
    requires IsSubsequence(a, b)
    ensures IsSubsequence(a + (if take then [x] else []), b + [x])
  {
    assert (b + [x])[..|b|] == b;
    if take {
      assert (a + [x])[..|a|] == a;
    } else {
      assert a + [] == a;
    }
  }

  /** Each of the three lists keeps the frame's column order. */
  lemma {:induction false} SelectionsKeepOrder(cols: seq<Column>, rows: nat, threshold: int, ratio: real)
    ensures IsSubsequence(NumericColumns(cols), cols)
    ensures IsSubsequence(KeptColumns(cols, rows, threshold, ratio), cols)
    ensures IsSubsequence(DroppedColumns(cols, rows, threshold, ratio), cols)
  {
    if cols != [] {
      var init, c := cols[..|cols| - 1], cols[|cols| - 1];
      SelectionsKeepOrder(init, rows, threshold, ratio);
      var n, k, d := NumericColumns(init), KeptColumns(init, rows, threshold, ratio), DroppedColumns(init, rows, threshold, ratio);
      SnocKeepsOrder(n, init, c, IsNumeric(c));
      SnocKeepsOrder(k, init, c, IsObjectLike(c) && !ShouldDrop(c, rows, threshold, ratio));
      SnocKeepsOrder(d, init, c, IsObjectLike(c) && ShouldDrop(c, rows, threshold, ratio));
    }
  }

  /** No two columns of the frame share a label. */
  predicate DistinctNames(cols: seq<Column>)
  {
    forall i, j :: 0 <= i < j < |cols| ==> cols[i].name != cols[j].name
  }

  lemma NameOf(cols: seq<Column>, n: string) returns (c: Column)
    requires n in Names(cols)
    ensures c in cols && c.name == n
  {
    var k :| 0 <= k < |cols| && Names(cols)[k] == n;
    c := cols[k];
  }

  lemma SameNameSameColumn(cols: seq<Column>, c1: Column, c2: Column)
    requires DistinctNames(cols) && c1 in cols && c2 in cols && c1.name == c2.name
    ensures c1 == c2
  {
    var i :| 0 <= i < |cols| && cols[i] == c1;
    var j :| 0 <= j < |cols| && cols[j] == c2;
  }

  /**
   * With distinct labels the three returned lists share no label: numeric
   * columns never reach the categorical or dropped lists, and no column is
   * both categorical and dropped.
   */
  lemma ReturnedListsDisjoint(cols: seq<Column>, rows: nat, threshold: int, ratio: real, n: string)
    requires DistinctNames(cols)
    ensures n in Names(NumericColumns(cols)) ==>
      n !in Names(KeptColumns(cols, rows, threshold, ratio)) && n !in Names(DroppedColumns(cols, rows, threshold, ratio))
    ensures n in Names(KeptColumns(cols, rows, threshold, ratio)) ==> n !in Names(DroppedColumns(cols, rows, threshold, ratio))
  {
    var numeric, kept, dropped := NumericColumns(cols), KeptColumns(cols, rows, threshold, ratio), DroppedColumns(cols, rows, threshold, ratio);
    if n in Names(numeric) {
      var c1 := NameOf(numeric, n);
      Placement(cols, rows, threshold, ratio, c1);
      if n in Names(kept) {
        var c2 := NameOf(kept, n);
        Placement(cols, rows, threshold, ratio, c2);
        SameNameSameColumn(cols, c1, c2);
      }
      if n in Names(dropped) {
        var c2 := NameOf(dropped, n);
        Placement(cols, rows, threshold, ratio, c2);
        SameNameSameColumn(cols, c1, c2);
      }
    }
    if n in Names(kept) && n in Names(dropped) {
      var c1 := NameOf(kept, n);
      var c2 := NameOf(dropped, n);
      Placement(cols, rows, threshold, ratio, c1);
      Placement(cols, rows, threshold, ratio, c2);
      SameNameSameColumn(cols, c1, c2);
    }
  }
}
