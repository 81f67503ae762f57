# csv_to_parquet: product catalog classifier

A model of the core of `csv_to_parquet.py`, a one-shot converter that reads a
product catalog, checks its header, sorts every product row into a "valid"
or an "error" bucket according to whether its `image` field holds a base64
PNG data URI that decodes to an image, and lays each bucket out column by
column for pyarrow.

The model has five modules:

- `Outcomes`: `Option`, the Python exceptions that can escape
  (`StopIteration`, `ValueError`, `IndexError`, `NameError`,
  `ArgumentTypeError`) and `Outcome<T>`, a returned value or a raised exception.
- `Strings`: `str.startswith`, `str.endswith` and `str.replace(p, "")`
  (`RemoveAll`), which drops every non-overlapping occurrence, scanning left
  to right, and leaves the string alone when `p` is empty.
- `Validators`: `is_valid_csv` (`IsValidCsv`) and `is_valid_image`
  (`IsValidImage`). The two foreign calls inside `is_valid_image`,
  `base64.b64decode` and `PIL.Image.open`, are the fields of an `ImageLib`
  value: `b64decode` returns the bytes, or `None` where Python's `b64decode`
  raises any exception (`binascii.Error` for bad padding or characters,
  `ValueError` for a `str` with non-ASCII characters; either way the handler
  raises `NameError` when it evaluates `binascii.Error`), and `opens` says whether PIL recognises the bytes.
- `ProductCatalog`: the method `ParseProductCatalog`, which follows
  `parse_product_catalog` step by step on a local `count` map and a local
  `products` map of maps. Its inner `zip` loop is the method `AppendFields`.
  Both are proved to compute `ParseCatalog`, a declarative specification. In
  `ParseCatalog`, a bucket's rows are a filter of the data rows (`RowsIn`), and
  its columns are their transposition (`Transpose`, `Column`).
- `CatalogProperties`: lemmas about `ParseCatalog`. They cover the header
  check, the first failing row, the partition into buckets, the counts,
  column lengths and contents, kept order, and per-row updates.

The file itself is not modelled. The input is the sequence of rows that
`csv.reader` yields, header first. The column dictionary is given by its list
of keys, which are distinct because they are dictionary keys.

Behaviour of the code worth noting:

- When base64 decoding fails, `is_valid_image` reaches `except binascii.Error`,
  but `binascii` is never imported, so evaluating that clause raises
  `NameError`. `IsValidImage` returns `Raised(NameError("binascii"))` on that
  path, and `ParseProductCatalog` propagates it (`Base64FailureRaises`).
- A row of fewer than six fields makes `row[5]` raise `IndexError`
  (`ShortRowRaisesIndexError`).
- `zip(header, row)` stops at the shorter of the two, so a row with six
  fields or more but fewer fields than the header adds to only its first
  `|row|` columns. `Column` models this, and the column-length lemmas assume
  full rows.
- A file with no line at all makes `next(reader)` raise `StopIteration`.

## Model

| member | source | states |
|---|---|---|
| `Validators.IsValidCsv` | csv_to_parquet.py:17-21 | the name is accepted iff it ends with `.csv`; an accepted name is returned unchanged; otherwise `ArgumentTypeError` with the source's message |
| `Validators.AcceptsCsvName` | csv_to_parquet.py:19-21 | every stem followed by `.csv` is accepted and returned as it is |
| `Validators.RejectsOtherNames` | csv_to_parquet.py:19-20 | `.CSV`, `.csv.bak` and a bare `csv` are rejected: the check is case-sensitive and anchored at the end |
| `Validators.IsValidImage` | csv_to_parquet.py:23-39 | non-strings and unprefixed strings give false; true iff prefixed and the payload (every prefix occurrence removed) decodes and opens; it raises iff base64 decoding of that payload fails, and then raises `NameError` |
| `Validators.RejectsNumber` | csv_to_parquet.py:25-26 | `25` gives false |
| `Validators.RejectsUnprefixedText` | csv_to_parquet.py:28-39 | `"ThisIsNotAnImage"` gives false whatever the image libraries would say |
| `Validators.RejectsUnopenablePayload` | csv_to_parquet.py:28-35 | `"data:image/png;base64,kjDNkjcvkdjf"` gives false when `kjDNkjcvkdjf` decodes to bytes PIL does not recognise |
| `Validators.AcceptsOpenablePayload` | csv_to_parquet.py:28-33 | a prefixed payload free of further prefixes gives true when it decodes and opens |
| `Validators.Base64FailureRaises` | csv_to_parquet.py:29-37 | a prefixed string whose payload is not base64 raises `NameError` and does not give false |
| `Validators.PayloadOfPrefixed` | csv_to_parquet.py:30 | for prefix + t, with no prefix inside t, the payload is exactly t |
| `Validators.PayloadDropsRepeatedPrefix` | csv_to_parquet.py:30 | a doubled prefix is removed twice: the payload is not just the text after the first prefix |
| `Strings.StartsWith` | csv_to_parquet.py:28 | `s.startswith(p)` holds iff `p` is no longer than `s` and agrees with it character by character from the start |
| `Strings.EndsWith` | csv_to_parquet.py:19 | `s.endswith(p)` holds iff `p` is no longer than `s` and matches the end of `s` character by character |
| `Strings.RemoveAll` | csv_to_parquet.py:30 | `replace(p, "")` never lengthens the string and is the identity for an empty pattern |
| `Strings.RemoveAllAbsent` | csv_to_parquet.py:30 | a string in which the pattern does not occur is returned unchanged |
| `Strings.RemoveAllLeading` | csv_to_parquet.py:30 | a leading occurrence is removed and the scan resumes right after it |
| `Strings.RemoveAllKeepsCharacters` | csv_to_parquet.py:30 | the result's characters are drawn from the input (multiset inclusion) |
| `ProductCatalog.FirstFailure` | csv_to_parquet.py:78-84 | no failure iff every data row can be classified (index 5 exists and the image check does not raise) |
| `ProductCatalog.EmptyColumns` | csv_to_parquet.py:62-65 | the initial bucket has exactly one list per column key |
| `ProductCatalog.Transpose` | csv_to_parquet.py:62-65 | a bucket laid out by columns has exactly one list per column key |
| `ProductCatalog.AppendRow` | csv_to_parquet.py:88-89 | appending a row changes no bucket's set of columns |
| `ProductCatalog.ParseCatalog` | csv_to_parquet.py:69-90 | the specification of the whole function: its body gives `StopIteration`, `ValueError`, the first row's failure, or the assembled buckets; its own contract says that success implies a header equal to the key list |
| `ProductCatalog.RowsIn` | csv_to_parquet.py:78-84 | a bucket never holds more rows than the file has data rows (that they are drawn from the data rows is `CatalogProperties.Partition`) |
| `ProductCatalog.BucketOf` | csv_to_parquet.py:81-84 | a row of at most five fields raises `IndexError`; any other exception from classifying a row is the `NameError` of the base64 handler (the bucket chosen is `CatalogProperties.RowClassification`) |
| `ProductCatalog.Assemble` | csv_to_parquet.py:62-89 | the `count` and `products` state after the loop has keys `valid` and `error` only, and each bucket's columns are keyed by the header's names |
| `ProductCatalog.Column` | csv_to_parquet.py:88-89 | a column never holds more values than there are rows in its bucket |
| `ProductCatalog.ParsedBucket` | csv_to_parquet.py:84-89 | after a successful parse, a bucket's count is the number of its rows and its columns are those rows transposed |
| `ProductCatalog.RowsInSnoc` | csv_to_parquet.py:84 | a consumed row is appended to the rows of its own bucket only |
| `ProductCatalog.CountSnoc` | csv_to_parquet.py:85 | a consumed row increments the count of its own bucket only |
| `ProductCatalog.ColumnsSnoc` | csv_to_parquet.py:88-89 | a consumed row appends its fields to its own bucket's columns and leaves the other bucket's columns as they were |
| `ProductCatalog.TransposeSnoc` | csv_to_parquet.py:88-89 | transposing one more row is appending its fields to the columns |
| `ProductCatalog.FailureExtends` | csv_to_parquet.py:78-84 | a failure among the first n rows is the failure reported for the whole file |
| `ProductCatalog.AppendFields` | csv_to_parquet.py:88-89 | the `zip` loop appends field j to column j for every j below the shorter of header and row |
| `ProductCatalog.ParseProductCatalog` | csv_to_parquet.py:41-90 | the loop returns, or raises, exactly what `ParseCatalog` specifies |
| `CatalogProperties.HeaderChecked` | csv_to_parquet.py:71-76 | an empty file raises `StopIteration`; a header other than the key list raises `ValueError` and no row is read |
| `CatalogProperties.HeaderOnly` | csv_to_parquet.py:62-67 | a header-only file succeeds with both counts 0 and every column of both buckets empty |
| `CatalogProperties.ParseSucceedsIff` | csv_to_parquet.py:71-89 | parsing succeeds iff the header matches and every data row can be classified |
| `CatalogProperties.ParseRaisesAtFirstBadRow` | csv_to_parquet.py:78-84 | the exception raised is that of the first data row that cannot be classified |
| `CatalogProperties.ShortRowRaisesIndexError` | csv_to_parquet.py:81 | a data row of fewer than six fields, after good rows, raises `IndexError` |
| `CatalogProperties.RowClassification` | csv_to_parquet.py:81-84 | a row goes to "valid" iff its sixth field is prefixed and its payload decodes and opens; to "error" iff it is unprefixed or its decoded bytes are rejected |
| `CatalogProperties.Partition` | csv_to_parquet.py:84 | the rows of the two buckets together are, as a multiset, exactly the data rows |
| `CatalogProperties.PartitionSizes` | csv_to_parquet.py:84-85 | the two buckets together hold as many rows as there are data rows |
| `CatalogProperties.CountsAddUp` | csv_to_parquet.py:67-85 | `count["valid"] + count["error"]` is the number of data rows |
| `CatalogProperties.Selected` | csv_to_parquet.py:78-84 | the positions of a bucket's rows are valid positions among the data rows |
| `CatalogProperties.SelectedRows` | csv_to_parquet.py:78-89 | a bucket's m-th row is the data row at its m-th selected position |
| `CatalogProperties.SelectedInOrder` | csv_to_parquet.py:78-89 | the selected positions are increasing, so file order is kept, and they are exactly the rows classified into the bucket |
| `CatalogProperties.ColumnOfFullRows` | csv_to_parquet.py:88-89 | when every row has field j, column j has one entry per row and entry m is field j of row m |
| `CatalogProperties.TransposeOfFullRows` | csv_to_parquet.py:88-89 | with rows as long as the header, the list under name j holds field j of every row in order |
| `CatalogProperties.FullRowColumns` | csv_to_parquet.py:84-89 | with full rows, every column list of a bucket has that bucket's count as length and its m-th entry is field j of the bucket's m-th row in file order |
| `CatalogProperties.RowStep` | csv_to_parquet.py:84-89 | one consumed row increments its bucket's count, appends each of its fields to that bucket's column, and leaves the other bucket untouched |
| `CatalogProperties.ProductColumnsWellFormed` | csv_to_parquet.py:128-136 | the command line's seven keys are distinct, with `image` at position 5 |

## Left out

- Opening the file and `csv.reader` tokenisation, with quoting and escaping,
  are library I/O. The input is the already split rows.
- `pa.schema` and `pa.Table.from_pydict` (csv_to_parquet.py:93-100) are
  foreign pyarrow calls. With all-string columns they pass the values through,
  so the model stops at the per-bucket column lists. Because of this, the
  model has no table-building error for uneven column lengths.
- `base64.b64decode` and `PIL.Image.open` are foreign libraries. They are
  abstract functions in `ImageLib`, so the model says nothing about which
  strings are valid base64 or which bytes form a PNG.
- `IsValidImage`: exceptions that PIL might raise besides
  `UnidentifiedImageError` are not modelled, because `opens` is a plain
  boolean.
- `ParseProductCatalog`: the `ValueError` carries the expected key list, not
  the formatted message text.
- `write_datasets` (csv_to_parquet.py:104-118) is filesystem work plus the date
  from `datetime.now()`.
- The command-line block, the global `start_time` and the printed report
  (csv_to_parquet.py:15, 120-150) are I/O and clock glue. Only the column
  keys of that block are kept, as `ProductColumns`.
- The execution-time test of test.py measures timing and filesystem
  behaviour, not logic.
