/**
  * `parse_product_catalog`: the header check, the classification of every
  * data row into the "valid" or the "error" bucket and the transposition of
  * each bucket's rows into one list per column. The model stops where the
  * lists are handed to pyarrow.
  */
module ProductCatalog {
  import opened Outcomes
  import opened Validators

  /** The two keys "valid" and "error" of `products` and `count`. */
  datatype Bucket = Valid | Error

  /** One line of the file as split by `csv.reader`. */
  type Row = seq<string>

  /** One bucket of `products`: column name to the values collected so far. */
  type Columns = map<string, seq<string>>

  /** What `parse_product_catalog` has built when its loop ends. */
  datatype Catalog = Catalog(count: map<Bucket, nat>, products: map<Bucket, Columns>)

  /** The position of the image field (`row[5]`). */
  const ImageField: nat := 5

  /** The keys of the `columns` dictionary the command line passes in. */
  const ProductColumns: seq<string> :=
    ["brand", "category_id", "comment", "currency", "description", "image", "year_release"]

  /** Dictionary keys are pairwise different. */
  predicate Distinct(s: seq<string>) {
    forall i, j :: 0 <= i < j < |s| ==> s[i] != s[j]
  }

  function Other(b: Bucket): Bucket {
    if b == Valid then Error else Valid
  }

  /**
    * Where one data row goes: `row[5]` raises `IndexError` on a short row,
    * `is_valid_image` may raise, and otherwise its answer picks the bucket.
    */
  function BucketOf(row: Row, lib: ImageLib): (r: Outcome<Bucket>)
    ensures |row| <= ImageField ==> r == Raised(IndexError)
    ensures |row| > ImageField && r.Raised? ==> r.exc == NameError(UnboundModule)
  {
    if |row| <= ImageField then Raised(IndexError)
    else
      var v := IsValidImage(Str(row[ImageField]), lib, PngPrefix);
      if v.Raised? then Raised(v.exc)
      else if v.value then Ok(Valid)
      else Ok(Error)
  }

  /** The exception of the first data row that cannot be classified, if any. */
  function FirstFailure(data: seq<Row>, lib: ImageLib): (r: Option<Exception>)
    ensures r.None? <==> forall k :: 0 <= k < |data| ==> BucketOf(data[k], lib).Ok?
  {
    if data == [] then None
    else
      match FirstFailure(data[..|data| - 1], lib)
      case Some(e) => Some(e)
      case None =>
        var last := BucketOf(data[|data| - 1], lib);
        if last.Raised? then Some(last.exc) else None
  }

  /** The data rows assigned to bucket `b`, in file order. */
  function RowsIn(data: seq<Row>, b: Bucket, lib: ImageLib): (r: seq<Row>)
    ensures |r| <= |data|
  {
    if data == [] then []
    else
      RowsIn(data[..|data| - 1], b, lib)
      + (if BucketOf(data[|data| - 1], lib) == Ok(b) then [data[|data| - 1]] else [])
  }

  /**
    * The values that `zip(header, row)` contributes to column `j`: field `j`
    * of every row that has one, in order.
    */
  function Column(rows: seq<Row>, j: nat): (r: seq<string>)
    ensures |r| <= |rows|
  {
    if rows == [] then []
    else
      var last := rows[|rows| - 1];
      Column(rows[..|rows| - 1], j) + (if j < |last| then [last[j]] else [])
  }

  /** The position of the first occurrence of `c` in `h`. */
  function IndexOf(h: seq<string>, c: string): (j: nat)
    requires c in h
    ensures j < |h| && h[j] == c
    ensures forall k :: 0 <= k < j ==> h[k] != c
  {
    if h[0] == c then 0 else 1 + IndexOf(h[1..], c)
  }

  /** In a list of distinct names each name is found at its own position. */
  lemma IndexOfDistinct(h: seq<string>, j: nat)
    requires Distinct(h) && j < |h|
    ensures IndexOf(h, h[j]) == j
  {
  }

  /** `rows` laid out column by column under the names of `header`. */
  function Transpose(rows: seq<Row>, header: seq<string>): (m: Columns)
    ensures m.Keys == set c | c in header
  {
    map c | c in header :: Column(rows, IndexOf(header, c))
  }

  /** The state of `count` and `products` once the rows `data` have been consumed. */
  function Assemble(data: seq<Row>, header: seq<string>, lib: ImageLib): (c: Catalog)
    ensures c.count.Keys == {Valid, Error} && c.products.Keys == {Valid, Error}
    ensures forall b :: b in c.products ==> c.products[b].Keys == set h | h in header
  {
    Catalog(
      map[Valid := |RowsIn(data, Valid, lib)|, Error := |RowsIn(data, Error, lib)|],
      map[Valid := Transpose(RowsIn(data, Valid, lib), header),
          Error := Transpose(RowsIn(data, Error, lib), header)])
  }

  /**
    * What `parse_product_catalog` returns or raises for the lines `rows` of
    * the file (header first) and the column keys `columns`.
    */
  function ParseCatalog(rows: seq<Row>, columns: seq<string>, lib: ImageLib): (r: Outcome<Catalog>)
    ensures r.Ok? ==> |rows| > 0 && rows[0] == columns
  {
    if |rows| == 0 then Raised(StopIteration)
    else if rows[0] != columns then Raised(ValueError(columns))
    else
      match FirstFailure(rows[1..], lib)
      case Some(e) => Raised(e)
      case None => Ok(Assemble(rows[1..], columns, lib))
  }

  /** A successful parse holds, for each bucket, the count and the columns of that bucket's rows. */
  lemma ParsedBucket(rows: seq<Row>, columns: seq<string>, lib: ImageLib, b: Bucket)
    requires ParseCatalog(rows, columns, lib).Ok?
    ensures var c := ParseCatalog(rows, columns, lib).value;
            b in c.count && b in c.products &&
            c.count[b] == |RowsIn(rows[1..], b, lib)| &&
            c.products[b] == Transpose(RowsIn(rows[1..], b, lib), columns)
  {
  }

  /** One pass of the inner `zip` loop: field `j` of `row` is appended to column `header[j]`. */
  function AppendRow(cols: Columns, header: seq<string>, row: Row): (m: Columns)
    ensures m.Keys == cols.Keys
  {
    map c | c in cols ::
      if c in header && IndexOf(header, c) < |row| then cols[c] + [row[IndexOf(header, c)]]
      else cols[c]
  }

  /** A bucket's columns are determined by their values at the header's positions. */
  lemma ColumnsByPosition(m1: Columns, m2: Columns, h: seq<string>)
    requires m1.Keys == (set c | c in h) && m2.Keys == m1.Keys
    requires forall j :: 0 <= j < |h| ==> m1[h[j]] == m2[h[j]]
    ensures m1 == m2
  {
    forall c | c in m1
      ensures m1[c] == m2[c]
    {
      var j := IndexOf(h, c);
    }
  }

  /** Appending a row to the rows of a bucket appends its fields to the columns. */
  lemma TransposeSnoc(rows: seq<Row>, x: Row, header: seq<string>)
    ensures Transpose(rows + [x], header) == AppendRow(Transpose(rows, header), header, x)
  {
    assert (rows + [x])[..|rows|] == rows;
    var before, after := Transpose(rows, header), Transpose(rows + [x], header);
    forall c | c in after
      ensures after[c] == AppendRow(before, header, x)[c]
    {
      var j := IndexOf(header, c);
      assert after[c] == Column(rows + [x], j);
      assert before[c] == Column(rows, j);
    }
  }

  /** A consumed row joins the rows of its own bucket, at the end. */
  lemma RowsInSnoc(data: seq<Row>, x: Row, b: Bucket, lib: ImageLib)
    ensures RowsIn(data + [x], b, lib) ==
            RowsIn(data, b, lib) + (if BucketOf(x, lib) == Ok(b) then [x] else [])
  {
    assert (data + [x])[..|data|] == data;
  }

  /** A consumed row counts for its own bucket only. */
  lemma CountSnoc(data: seq<Row>, x: Row, lib: ImageLib, b: Bucket)
    ensures |RowsIn(data + [x], b, lib)| ==
            |RowsIn(data, b, lib)| + (if BucketOf(x, lib) == Ok(b) then 1 else 0)
  {
    RowsInSnoc(data, x, b, lib);
  }

  /** A consumed row changes the columns of its own bucket and leaves the other's alone. */
  lemma ColumnsSnoc(data: seq<Row>, x: Row, header: seq<string>, lib: ImageLib, b: Bucket)
    ensures Transpose(RowsIn(data + [x], b, lib), header) ==
            if BucketOf(x, lib) == Ok(b) then AppendRow(Transpose(RowsIn(data, b, lib), header), header, x)
            else Transpose(RowsIn(data, b, lib), header)
  {
    RowsInSnoc(data, x, b, lib);
    if BucketOf(x, lib) == Ok(b) {
      TransposeSnoc(RowsIn(data, b, lib), x, header);
    } else {
      assert RowsIn(data + [x], b, lib) == RowsIn(data, b, lib);
    }
  }

  /** Two bucket maps with the same entries for "valid" and "error" are equal. */
  lemma SameBuckets<V>(m1: map<Bucket, V>, m2: map<Bucket, V>)
    requires m1.Keys == {Valid, Error} && m2.Keys == {Valid, Error}
    requires m1[Valid] == m2[Valid] && m1[Error] == m2[Error]
    ensures m1 == m2
  {
  }

  /** `c` agrees, bucket by bucket, with what consuming `data` builds. */
  predicate Matches(c: Catalog, data: seq<Row>, header: seq<string>, lib: ImageLib) {
    c.count.Keys == {Valid, Error} && c.products.Keys == {Valid, Error} &&
    c.count[Valid] == |RowsIn(data, Valid, lib)| && c.count[Error] == |RowsIn(data, Error, lib)| &&
    c.products[Valid] == Transpose(RowsIn(data, Valid, lib), header) &&
    c.products[Error] == Transpose(RowsIn(data, Error, lib), header)
  }

  lemma MatchesAssemble(c: Catalog, data: seq<Row>, header: seq<string>, lib: ImageLib)
    requires Matches(c, data, header, lib)
    ensures c == Assemble(data, header, lib)
  {
    var a := Assemble(data, header, lib);
    SameBuckets(c.count, a.count);
    SameBuckets(c.products, a.products);
  }

  /** The loop body keeps `Matches`: the step of `ParseProductCatalog` in one lemma. */
  lemma MatchesSnoc(c: Catalog, data: seq<Row>, x: Row, header: seq<string>, lib: ImageLib, b: Bucket)
    requires Matches(c, data, header, lib)
    requires BucketOf(x, lib) == Ok(b)
    ensures Matches(Catalog(c.count[b := c.count[b] + 1],
                            c.products[b := AppendRow(c.products[b], header, x)]),
                    data + [x], header, lib)
  {
    var count := c.count[b := c.count[b] + 1];
    var products := c.products[b := AppendRow(c.products[b], header, x)];
    var d := data + [x];
    assert count[Valid] == |RowsIn(d, Valid, lib)| by { CountSnoc(data, x, lib, Valid); }
    assert count[Error] == |RowsIn(d, Error, lib)| by { CountSnoc(data, x, lib, Error); }
    assert products[Valid] == Transpose(RowsIn(d, Valid, lib), header) by {
      ColumnsSnoc(data, x, header, lib, Valid);
    }
    assert products[Error] == Transpose(RowsIn(d, Error, lib), header) by {
      ColumnsSnoc(data, x, header, lib, Error);
    }
  }

  /** A failure among the first `n` rows is the failure of all of them. */
  lemma {:induction false} FailureExtends(data: seq<Row>, n: nat, lib: ImageLib)
    requires n <= |data|
    requires FirstFailure(data[..n], lib).Some?
    ensures FirstFailure(data, lib) == FirstFailure(data[..n], lib)
    decreases |data| - n
  {
    if n < |data| {
      var init := data[..|data| - 1];
      assert init[..n] == data[..n];
      FailureExtends(init, n, lib);
    } else {
      assert data[..n] == data;
    }
  }

  /** `{column: list() for column in columns.keys()}` */
  function EmptyColumns(columns: seq<string>): (m: Columns)
    ensures m.Keys == set c | c in columns
  {
    map c | c in columns :: []
  }

  /** Before the loop: no row consumed, both buckets hold empty columns. */
  lemma NothingConsumed(data: seq<Row>, header: seq<string>, lib: ImageLib)
    ensures FirstFailure(data[..0], lib) == None
    ensures Matches(Catalog(map[Valid := 0, Error := 0],
                            map[Valid := EmptyColumns(header), Error := EmptyColumns(header)]),
                    data[..0], header, lib)
  {
    assert data[..0] == [];
    assert EmptyColumns(header) == Transpose([], header);
  }

  /** Row `i` is the first that cannot be classified: its exception is the failure of all rows. */
  lemma StopsAt(data: seq<Row>, i: nat, lib: ImageLib)
    requires i < |data|
    requires FirstFailure(data[..i], lib) == None
    requires BucketOf(data[i], lib).Raised?
    ensures FirstFailure(data, lib) == Some(BucketOf(data[i], lib).exc)
  {
    assert data[..i + 1][..i] == data[..i];
    FailureExtends(data, i + 1, lib);
  }

  /** Consuming row `i` of `data` keeps both loop invariants of `ParseProductCatalog`. */
  lemma Advance(c: Catalog, data: seq<Row>, i: nat, header: seq<string>, lib: ImageLib, b: Bucket)
    requires i < |data|
    requires FirstFailure(data[..i], lib) == None
    requires Matches(c, data[..i], header, lib)
    requires BucketOf(data[i], lib) == Ok(b)
    ensures FirstFailure(data[..i + 1], lib) == None
    ensures Matches(Catalog(c.count[b := c.count[b] + 1],
                            c.products[b := AppendRow(c.products[b], header, data[i])]),
                    data[..i + 1], header, lib)
  {
    assert data[..i + 1] == data[..i] + [data[i]];
    MatchesSnoc(c, data[..i], data[i], header, lib, b);
  }

  /**
    * The inner loop `for column, value in zip(header, row)`: each field is
    * appended to the list of its column; `zip` stops at the shorter of the
    * two, so a short row leaves the remaining columns as they were.
    */
  method AppendFields(cols: Columns, header: seq<string>, row: Row) returns (r: Columns)
    requires Distinct(header)
    requires cols.Keys == set c | c in header
    ensures r == AppendRow(cols, header, row)
  {
    r := cols;
    var k := 0;
    while k < |header| && k < |row|
      invariant k <= |header| && k <= |row|
      invariant r.Keys == cols.Keys
      invariant forall j :: 0 <= j < |header| ==>
                  r[header[j]] == cols[header[j]] + (if j < k then [row[j]] else [])
    {
      ghost var previous := r;
      r := r[header[k] := r[header[k]] + [row[k]]];
      forall j | 0 <= j < |header| && j != k
        ensures r[header[j]] == previous[header[j]]
      {
        assert header[j] != header[k];
      }
      k := k + 1;
    }
    forall j | 0 <= j < |header|
      ensures r[header[j]] == AppendRow(cols, header, row)[header[j]]
    {
      IndexOfDistinct(header, j);
    }
    ColumnsByPosition(r, AppendRow(cols, header, row), header);
  }

  /**
    * `parse_product_catalog` on the already split lines of the file; `lib`
    * stands for base64 and PIL. The result is what the specification
    * `ParseCatalog` says, which the lemmas of `CatalogProperties` describe.
    */
  method ParseProductCatalog(rows: seq<Row>, columns: seq<string>, lib: ImageLib) returns (r: Outcome<Catalog>)
    requires Distinct(columns)
    ensures r == ParseCatalog(rows, columns, lib)
  {
    var products: map<Bucket, Columns> :=
      map[Valid := EmptyColumns(columns), Error := EmptyColumns(columns)];
    var count: map<Bucket, nat> := map[Valid := 0, Error := 0];

    if |rows| == 0 {
      return Raised(StopIteration);
    }
    var header := rows[0];
    if header != columns {
      return Raised(ValueError(columns));
    }
    var data := rows[1..];
    NothingConsumed(data, header, lib);

    var i := 0;
    while i < |data|
      invariant i <= |data|
      invariant FirstFailure(data[..i], lib) == None
      invariant Matches(Catalog(count, products), data[..i], header, lib)
    {
      var row := data[i];
      if |row| <= ImageField {
        StopsAt(data, i, lib);
        return Raised(IndexError);
      }
      var image := row[ImageField];
      var valid := IsValidImage(Str(image), lib, PngPrefix);
      if valid.Raised? {
        StopsAt(data, i, lib);
        return Raised(valid.exc);
      }
      var b := if valid.value then Valid else Error;
      Advance(Catalog(count, products), data, i, header, lib, b);
      count := count[b := count[b] + 1];

      var cols := AppendFields(products[b], header, row);
      products := products[b := cols];
      i := i + 1;
    }
    assert data[..i] == data;
    MatchesAssemble(Catalog(count, products), data, header, lib);
    return Ok(Catalog(count, products));
  }
}
