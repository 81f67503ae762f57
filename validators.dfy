/** The two guards of the converter: the command-line file name check and the image check. */
module Validators {
  import opened Outcomes
  import opened Strings

  const CsvSuffix: string := ".csv"
  const NotCsvMessage: string := "File does not seems to be a csv."

  /**
    * `is_valid_csv`, the argparse type of the `--file` flag: the name is
    * returned as it is when it ends with `.csv`, otherwise an
    * `ArgumentTypeError` is raised.
    */
  function IsValidCsv(filename: string): (r: Outcome<string>)
    ensures r.Ok? <==> EndsWith(filename, CsvSuffix)
    ensures r.Ok? ==> r.value == filename
    ensures r.Raised? ==> r.exc == ArgumentTypeError(NotCsvMessage)
  {
    if !EndsWith(filename, CsvSuffix) then Raised(ArgumentTypeError(NotCsvMessage))
    else Ok(filename)
  }

  /** Any stem followed by `.csv` is accepted as it is. */
  lemma AcceptsCsvName(stem: string)
    ensures IsValidCsv(stem + CsvSuffix) == Ok(stem + CsvSuffix)
  {
    assert (stem + CsvSuffix)[|stem + CsvSuffix| - |CsvSuffix|..] == CsvSuffix;
  }

  /** The suffix check is case-sensitive and looks at the very end of the name. */
  lemma RejectsOtherNames()
    ensures IsValidCsv("catalog.CSV").Raised?
    ensures IsValidCsv("catalog.csv.bak").Raised?
    ensures IsValidCsv("csv").Raised?
  {
    assert "catalog.CSV"[7..] == ".CSV";
    assert "catalog.csv.bak"[11..] == ".bak";
  }

  /** Feeding an accepted name back in accepts it again. */
  newtype byte = x: int | 0 <= x < 256

  /** A Python value handed to `is_valid_image`: only `Str` is of type `str`. */
  datatype Value = Str(s: string) | Int(n: int) | NoneValue

  /**
    * The two foreign library calls of `is_valid_image`, left uninterpreted:
    * `base64.b64decode` gives the decoded bytes, or `None` when it raises
    * `binascii.Error`; `opens` says whether `PIL.Image.open` recognises the
    * bytes as an image (`false` stands for `UnidentifiedImageError`).
    */
  datatype ImageLib = ImageLib(b64decode: string -> Option<seq<byte>>, opens: seq<byte> -> bool)

  /** The default `image_prefix` of `is_valid_image`. */
  const PngPrefix: string := "data:image/png;base64,"

  /** The name the failing `except` clause looks up; the module is never imported. */
  const UnboundModule: string := "binascii"

  /** The payload base64-decodes and the image library opens the bytes. */
  predicate Decodes(lib: ImageLib, payload: string) {
    lib.b64decode(payload).Some? && lib.opens(lib.b64decode(payload).value)
  }

  /**
    * `is_valid_image(data, prefix)`. The payload is `data` with EVERY
    * occurrence of the prefix removed (`str.replace`). When base64 decoding
    * fails, evaluating `except binascii.Error` raises a `NameError`, so that
    * path is an exception and not `false`.
    */
  function IsValidImage(data: Value, lib: ImageLib, prefix: string): (r: Outcome<bool>)
    ensures !data.Str? ==> r == Ok(false)
    ensures data.Str? && !StartsWith(data.s, prefix) ==> r == Ok(false)
    ensures r == Ok(true) <==>
              data.Str? && StartsWith(data.s, prefix) && Decodes(lib, RemoveAll(data.s, prefix))
    ensures r.Raised? <==>
              data.Str? && StartsWith(data.s, prefix) && lib.b64decode(RemoveAll(data.s, prefix)).None?
    ensures r.Raised? ==> r.exc == NameError(UnboundModule)
  {
    if !data.Str? then Ok(false)
    else if StartsWith(data.s, prefix) then
      match lib.b64decode(RemoveAll(data.s, prefix))
      case None => Raised(NameError(UnboundModule))
      case Some(bytes) => Ok(lib.opens(bytes))
    else Ok(false)
  }

  /** A prefixed string whose rest holds no further prefix has exactly that rest as payload. */
  lemma PayloadOfPrefixed(t: string)
    requires forall i :: 0 <= i < |t| ==> !OccursAt(t, PngPrefix, i)
    ensures StartsWith(PngPrefix + t, PngPrefix)
    ensures RemoveAll(PngPrefix + t, PngPrefix) == t
  {
    RemoveAllLeading(PngPrefix, t);
    RemoveAllAbsent(t, PngPrefix);
  }

  /** Repeated prefixes are all stripped, not just the leading one. */
  lemma PayloadDropsRepeatedPrefix(t: string)
    ensures RemoveAll(PngPrefix + PngPrefix + t, PngPrefix) == RemoveAll(t, PngPrefix)
  {
    assert PngPrefix + PngPrefix + t == PngPrefix + (PngPrefix + t);
    RemoveAllLeading(PngPrefix, PngPrefix + t);
    RemoveAllLeading(PngPrefix, t);
  }

  /** The integer `25` is not a string. */
  lemma RejectsNumber(lib: ImageLib)
    ensures IsValidImage(Int(25), lib, PngPrefix) == Ok(false)
  {
  }

  /** A string without the prefix is rejected, whatever the libraries would say. */
  lemma RejectsUnprefixedText(lib: ImageLib)
    ensures IsValidImage(Str("ThisIsNotAnImage"), lib, PngPrefix) == Ok(false)
  {
  }

  /** A prefixed payload that decodes to bytes the image library rejects gives `false`. */
  lemma RejectsUnopenablePayload(lib: ImageLib)
    requires lib.b64decode("kjDNkjcvkdjf").Some?
    requires !lib.opens(lib.b64decode("kjDNkjcvkdjf").value)
    ensures IsValidImage(Str("data:image/png;base64,kjDNkjcvkdjf"), lib, PngPrefix) == Ok(false)
  {
    assert "data:image/png;base64,kjDNkjcvkdjf" == PngPrefix + "kjDNkjcvkdjf";
    PayloadOfPrefixed("kjDNkjcvkdjf");
  }

  /** A prefixed payload that decodes and opens gives `true`. */
  lemma AcceptsOpenablePayload(lib: ImageLib, t: string)
    requires forall i :: 0 <= i < |t| ==> !OccursAt(t, PngPrefix, i)
    requires Decodes(lib, t)
    ensures IsValidImage(Str(PngPrefix + t), lib, PngPrefix) == Ok(true)
  {
    PayloadOfPrefixed(t);
  }

  /** A prefixed payload that is not base64 raises `NameError` instead of giving `false`. */
  lemma Base64FailureRaises(lib: ImageLib, t: string)
    requires lib.b64decode(RemoveAll(t, PngPrefix)).None?
    ensures IsValidImage(Str(PngPrefix + t), lib, PngPrefix) == Raised(NameError(UnboundModule))
  {
    RemoveAllLeading(PngPrefix, t);
    assert StartsWith(PngPrefix + t, PngPrefix);
  }
}
