/**
  * What `parse_product_catalog` guarantees, stated about the
  * specification `ParseCatalog` that `ParseProductCatalog` is proved to meet.
  */
module CatalogProperties {
  import opened Outcomes
  import opened Strings
  import opened Validators
  import opened ProductCatalog

  /** The positions, among the data rows, of the rows assigned to bucket `b`. */
  function Selected(data: seq<Row>, b: Bucket, lib: ImageLib): (r: seq<nat>)
    ensures |r| <= |data|
    ensures forall m :: 0 <= m < |r| ==> r[m] < |data|
  {
    if data == [] then []
    else
      Selected(data[..|data| - 1], b, lib)
      + (if BucketOf(data[|data| - 1], lib) == Ok(b) then [|data| - 1] else [])
  }

  /** The rows of a bucket are the data rows at the selected positions. */
  lemma {:induction false} SelectedRows(data: seq<Row>, b: Bucket, lib: ImageLib)
    ensures |Selected(data, b, lib)| == |RowsIn(data, b, lib)|
    ensures forall m :: 0 <= m < |Selected(data, b, lib)| ==>
              RowsIn(data, b, lib)[m] == data[Selected(data, b, lib)[m]]
  {
    if data != [] {
      var init := data[..|data| - 1];
      SelectedRows(init, b, lib);
      assert forall i :: 0 <= i < |init| ==> init[i] == data[i];
    }
  }

  /**
    * The selected positions are increasing (file order is kept) and are
    * exactly the positions of the rows classified into `b`.
    */
  lemma {:induction false} SelectedInOrder(data: seq<Row>, b: Bucket, lib: ImageLib)
    ensures var sel := Selected(data, b, lib);
            (forall m, n :: 0 <= m < n < |sel| ==> sel[m] < sel[n]) &&
            (forall i :: 0 <= i < |data| ==> (i in sel <==> BucketOf(data[i], lib) == Ok(b)))
  {
    if data != [] {
      var init := data[..|data| - 1];
      SelectedInOrder(init, b, lib);
      assert forall i :: 0 <= i < |init| ==> init[i] == data[i];
    }
  }

  /** Adding one element to one of two parts keeps them a split of the whole. */
  lemma SplitSnoc<T>(whole: seq<T>, x: T, v: seq<T>, e: seq<T>, v': seq<T>, e': seq<T>)
    requires multiset(v) + multiset(e) == multiset(whole)
    requires (v' == v + [x] && e' == e) || (v' == v && e' == e + [x])
    ensures multiset(v') + multiset(e') == multiset(whole + [x])
  {
    assert multiset(whole + [x]) == multiset(whole) + multiset{x};
    if v' == v + [x] && e' == e {
      assert multiset(v') == multiset(v) + multiset{x};
    } else {
      assert multiset(e') == multiset(e) + multiset{x};
    }
  }

  /** Every data row that was classified lands in exactly one of the two buckets. */
  lemma {:induction false} Partition(data: seq<Row>, lib: ImageLib)
    requires FirstFailure(data, lib) == None
    ensures multiset(RowsIn(data, Valid, lib)) + multiset(RowsIn(data, Error, lib)) == multiset(data)
  {
    if data != [] {
      var init := data[..|data| - 1];
      var last := data[|data| - 1];
      assert data == init + [last];
      assert FirstFailure(init, lib) == None && BucketOf(last, lib).Ok?;
      Partition(init, lib);
      RowsInSnoc(init, last, Valid, lib);
      RowsInSnoc(init, last, Error, lib);
      SplitSnoc(init, last, RowsIn(init, Valid, lib), RowsIn(init, Error, lib),
                RowsIn(data, Valid, lib), RowsIn(data, Error, lib));
    }
  }

  /** Hence the two buckets together hold as many rows as there are data rows. */
  lemma PartitionSizes(data: seq<Row>, lib: ImageLib)
    requires FirstFailure(data, lib) == None
    ensures |RowsIn(data, Valid, lib)| + |RowsIn(data, Error, lib)| == |data|
  {
    Partition(data, lib);
    assert |multiset(RowsIn(data, Valid, lib)) + multiset(RowsIn(data, Error, lib))| == |multiset(data)|;
  }

  /** `count["valid"] + count["error"]` is the number of data rows. */
  lemma CountsAddUp(rows: seq<Row>, columns: seq<string>, lib: ImageLib)
    requires ParseCatalog(rows, columns, lib).Ok?
    ensures var c := ParseCatalog(rows, columns, lib).value;
            c.count[Valid] + c.count[Error] == |rows| - 1
  {
    PartitionSizes(rows[1..], lib);
    ParsedBucket(rows, columns, lib, Valid);
    ParsedBucket(rows, columns, lib, Error);
  }

  /** A file with no line at all, or whose header is not the key list, raises before any row is read. */
  lemma HeaderChecked(rows: seq<Row>, columns: seq<string>, lib: ImageLib)
    ensures |rows| == 0 ==> ParseCatalog(rows, columns, lib) == Raised(StopIteration)
    ensures |rows| > 0 && rows[0] != columns ==>
              ParseCatalog(rows, columns, lib) == Raised(ValueError(columns))
  {
  }

  /** A header-only file gives zero counts and an empty list for every column of both buckets. */
  lemma HeaderOnly(columns: seq<string>, lib: ImageLib)
    ensures ParseCatalog([columns], columns, lib).Ok?
    ensures var c := ParseCatalog([columns], columns, lib).value;
            c.count[Valid] == 0 && c.count[Error] == 0 &&
            (forall name :: name in columns ==>
               name in c.products[Valid] && c.products[Valid][name] == [] &&
               name in c.products[Error] && c.products[Error][name] == [])
  {
    assert [columns][1..] == [];
  }

  /**
    * Parsing succeeds exactly when the header matches and every data row can
    * be classified.
    */
  lemma ParseSucceedsIff(rows: seq<Row>, columns: seq<string>, lib: ImageLib)
    ensures ParseCatalog(rows, columns, lib).Ok? <==>
              |rows| > 0 && rows[0] == columns &&
              forall k :: 1 <= k < |rows| ==> BucketOf(rows[k], lib).Ok?
  {
    if |rows| > 0 && rows[0] == columns {
      var data := rows[1..];
      assert forall k :: 1 <= k < |rows| ==> rows[k] == data[k - 1];
    }
  }

  /** The first data row that cannot be classified decides the exception raised. */
  lemma ParseRaisesAtFirstBadRow(rows: seq<Row>, columns: seq<string>, lib: ImageLib, i: nat)
    requires |rows| > 0 && rows[0] == columns
    requires 1 <= i < |rows|
    requires forall k :: 1 <= k < i ==> BucketOf(rows[k], lib).Ok?
    requires BucketOf(rows[i], lib).Raised?
    ensures ParseCatalog(rows, columns, lib) == Raised(BucketOf(rows[i], lib).exc)
  {
    var data := rows[1..];
    var n := i - 1;
    assert forall k :: 0 <= k < n ==> data[..n][k] == rows[k + 1];
    assert FirstFailure(data[..n], lib) == None;
    assert data[..n + 1][..n] == data[..n];
    assert data[..n + 1][n] == rows[i];
    FailureExtends(data, n + 1, lib);
  }

  /** A data row with fewer than six fields (and good rows before it) raises `IndexError`. */
  lemma ShortRowRaisesIndexError(rows: seq<Row>, columns: seq<string>, lib: ImageLib, i: nat)
    requires |rows| > 0 && rows[0] == columns
    requires 1 <= i < |rows| && |rows[i]| <= ImageField
    requires forall k :: 1 <= k < i ==> BucketOf(rows[k], lib).Ok?
    ensures ParseCatalog(rows, columns, lib) == Raised(IndexError)
  {
    ParseRaisesAtFirstBadRow(rows, columns, lib, i);
  }

  /**
    * A row goes to "valid" exactly when its sixth field is a prefixed string
    * whose payload decodes and opens as an image; to "error" when it is not
    * prefixed or the image library rejects the decoded bytes.
    */
  lemma RowClassification(row: Row, lib: ImageLib)
    requires |row| > ImageField
    ensures BucketOf(row, lib) == Ok(Valid) <==>
              StartsWith(row[ImageField], PngPrefix) &&
              Decodes(lib, RemoveAll(row[ImageField], PngPrefix))
    ensures BucketOf(row, lib) == Ok(Error) <==>
              !StartsWith(row[ImageField], PngPrefix) ||
              (lib.b64decode(RemoveAll(row[ImageField], PngPrefix)).Some? &&
               !lib.opens(lib.b64decode(RemoveAll(row[ImageField], PngPrefix)).value))
  {
  }

  /** With every row as long as the header, column `j` is field `j` of each row, in order. */
  lemma {:induction false} ColumnOfFullRows(rows: seq<Row>, j: nat)
    requires forall k :: 0 <= k < |rows| ==> j < |rows[k]|
    ensures |Column(rows, j)| == |rows|
    ensures forall m :: 0 <= m < |rows| ==> Column(rows, j)[m] == rows[m][j]
  {
    if rows != [] {
      var init := rows[..|rows| - 1];
      ColumnOfFullRows(init, j);
    }
  }

  /**
    * When every data row has as many fields as the header, each column of a
    * bucket has one entry per row of that bucket, and entry `m` is field `j`
    * of the bucket's `m`-th row in file order.
    */
  lemma FullRowColumns(rows: seq<Row>, columns: seq<string>, lib: ImageLib, b: Bucket, j: nat)
    requires Distinct(columns) && j < |columns|
    requires forall k :: 1 <= k < |rows| ==> |rows[k]| == |columns|
    requires ParseCatalog(rows, columns, lib).Ok?
    ensures var c := ParseCatalog(rows, columns, lib).value;
            var sel := Selected(rows[1..], b, lib);
            columns[j] in c.products[b] &&
            |c.products[b][columns[j]]| == c.count[b] == |sel| &&
            forall m :: 0 <= m < |sel| ==> c.products[b][columns[j]][m] == rows[1 + sel[m]][j]
  {
    var data := rows[1..];
    var inB := RowsIn(data, b, lib);
    var sel := Selected(data, b, lib);
    ParsedBucket(rows, columns, lib, b);
    SelectedRows(data, b, lib);
    assert forall m :: 0 <= m < |inB| ==> inB[m] == rows[1 + sel[m]];
    TransposeOfFullRows(inB, columns, j);
  }

  /** The same for any rows that all have as many fields as the header. */
  lemma TransposeOfFullRows(rs: seq<Row>, columns: seq<string>, j: nat)
    requires Distinct(columns) && j < |columns|
    requires forall m :: 0 <= m < |rs| ==> |rs[m]| == |columns|
    ensures columns[j] in Transpose(rs, columns)
    ensures |Transpose(rs, columns)[columns[j]]| == |rs|
    ensures forall m :: 0 <= m < |rs| ==> Transpose(rs, columns)[columns[j]][m] == rs[m][j]
  {
    ColumnOfFullRows(rs, j);
    IndexOfDistinct(columns, j);
  }

  /**
    * Consuming one more row: its bucket's count grows by one, every field of
    * the row goes to that bucket, and the other bucket is left unchanged.
    */
  lemma RowStep(data: seq<Row>, x: Row, columns: seq<string>, lib: ImageLib, b: Bucket)
    requires Distinct(columns) && |x| == |columns|
    requires BucketOf(x, lib) == Ok(b)
    ensures var before, after := Assemble(data, columns, lib), Assemble(data + [x], columns, lib);
            after.count[b] == before.count[b] + 1 &&
            after.count[Other(b)] == before.count[Other(b)] &&
            after.products[Other(b)] == before.products[Other(b)] &&
            forall j :: 0 <= j < |columns| ==>
              after.products[b][columns[j]] == before.products[b][columns[j]] + [x[j]]
  {
    var before, after := Assemble(data, columns, lib), Assemble(data + [x], columns, lib);
    var appended := AppendRow(before.products[b], columns, x);
    assert after.count[b] == before.count[b] + 1 by { CountSnoc(data, x, lib, b); }
    assert after.count[Other(b)] == before.count[Other(b)] by { CountSnoc(data, x, lib, Other(b)); }
    assert after.products[b] == appended by { ColumnsSnoc(data, x, columns, lib, b); }
    assert after.products[Other(b)] == before.products[Other(b)] by {
      ColumnsSnoc(data, x, columns, lib, Other(b));
    }
    forall j | 0 <= j < |columns|
      ensures appended[columns[j]] == before.products[b][columns[j]] + [x[j]]
    {
      IndexOfDistinct(columns, j);
    }
  }

  /** The command line's column keys: seven distinct names with "image" at position 5. */
  lemma ProductColumnsWellFormed()
    ensures |ProductColumns| == 7 && Distinct(ProductColumns)
    ensures ProductColumns[ImageField] == "image"
  {
  }
}
