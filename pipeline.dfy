/**
  The per-file decision after text extraction: parse only texts that are
  non-empty, do not start with "Error" and come from a supported extension;
  compare only when the parsed serial number is a non-empty string, against
  the reference row found under exactly that serial number.
 */
module Pipeline {
  import opened Wrappers
  import opened Text
  import opened FieldParser
  import opened Comparator
  import opened Extraction

  /** The reference table: serial number to reference row. */
  type Database = map<string, Row>

  /** The extensions whose text is parsed. */
  const SupportedExtensions: seq<string> := ["docx", "pdf", "png", "jpg", "jpeg", "bmp", "gif", "tiff"]

  const SrNoKey: string := "Sr no."

  const SrNoMissing: string := "Sr no. not found in extracted data, cannot compare."

  /** What is shown for one uploaded file. */
  datatype FileResult =
    | NoSelectedFile
    | Processed(extractedText: string, structuredData: Record, accuracy: Option<real>,
                mismatchedFields: map<string, Mismatch>, comparisonError: Option<string>)

  /** An uploaded file: its name and what each external backend returns for it. */
  datatype Upload = Upload(filename: string, outputs: BackendOutputs)

  /** Exact-key lookup of a serial number; `None` when the table has no such key. */
  function GetDatabaseData(db: Database, srNo: string): (r: Option<Row>)
    ensures r.Some? <==> srNo in db
    ensures r.Some? ==> r.value == db[srNo]
  {
    if srNo in db then Some(db[srNo]) else None
  }

  /** The gate before parsing: the text is non-empty, does not start with
      "Error", and the extension is a supported one. */
  predicate PassesGate(ext: string, text: string)
    ensures PassesGate(ext, text) ==> BackendFor(ext) != Unsupported
  {
    text != "" && !StartsWith(text, "Error") && ext in SupportedExtensions
  }

  /** The serial number usable for lookup: present and non-empty (Python treats
      `None` and `""` alike as false). */
  function UsableSrNo(data: Record): (r: Option<string>)
    ensures r.Some? ==> r.value != ""
    ensures r.Some? <==> SrNoKey in data && data[SrNoKey].Some? && data[SrNoKey].value != ""
  {
    match Get(data, SrNoKey)
    case Some(s) => if s != "" then Some(s) else None
    case None => None
  }

  /** The per-file decision on an extension and the extracted text. */
  function ProcessExtractedText(ext: string, text: string, db: Database): (r: FileResult)
    ensures r.Processed? && r.extractedText == text
    ensures r.accuracy.Some? || r.comparisonError.Some? ==> PassesGate(ext, text)
    ensures r.accuracy.Some? ==> r.comparisonError != Some(SrNoMissing)
    ensures r.accuracy.None? ==> r.mismatchedFields == map[]
  {
    if PassesGate(ext, text) then
      var data := StructuredData(text);
      match UsableSrNo(data)
      case Some(srNo) =>
        var c := Compare(data, GetDatabaseData(db, srNo));
        Processed(text, data, Some(c.accuracy), c.mismatches, c.error)
      case None => Processed(text, data, None, map[], Some(SrNoMissing))
    else Processed(text, map[], None, map[], None)
  }

  /** One uploaded file, from its name to its result. */
  function ProcessUpload(u: Upload, db: Database): (r: FileResult)
    ensures r.NoSelectedFile? <==> u.filename == ""
    ensures r.Processed? && r.structuredData != map[] ==> Dispatch(u.filename) != Unsupported
  {
    if u.filename == "" then NoSelectedFile
    else ProcessExtractedText(FileExtension(u.filename), ExtractTextFromFile(u.filename, u.outputs), db)
  }

  /** The results table after handling each upload in order with `process`:
      one entry per file name, a later upload replacing an earlier one under the
      same name. */
  function Results(uploads: seq<Upload>, process: Upload -> FileResult): (r: map<string, FileResult>)
    ensures r.Keys == set u | u in uploads :: u.filename
  {
    if uploads == [] then map[]
    else
      var n := |uploads|;
      var last := uploads[n - 1];
      assert (set u | u in uploads :: u.filename)
          == (set u | u in uploads[..n - 1] :: u.filename) + {last.filename} by {
        assert uploads == uploads[..n - 1] + [last];
      }
      Results(uploads[..n - 1], process)[last.filename := process(last)]
  }

  /** Processes the uploads in order, storing each result under its file name. */
  method ProcessUploads(uploads: seq<Upload>, db: Database) returns (results: map<string, FileResult>)
    ensures results == Results(uploads, u => ProcessUpload(u, db))
    ensures results.Keys == set u | u in uploads :: u.filename
  {
    results := map[];
    for i := 0 to |uploads|
      invariant results == Results(uploads[..i], u => ProcessUpload(u, db))
    {
      assert uploads[..i + 1][..i] == uploads[..i];
      results := results[uploads[i].filename := ProcessUpload(uploads[i], db)];
    }
    assert uploads[..|uploads|] == uploads;
  }

  /** A file name's entry is the result of the last upload with that name. */
  lemma {:induction false} LastUploadWins(uploads: seq<Upload>, process: Upload -> FileResult, i: int)
    requires 0 <= i < |uploads|
    requires forall j :: i < j < |uploads| ==> uploads[j].filename != uploads[i].filename
    ensures uploads[i].filename in Results(uploads, process)
    ensures Results(uploads, process)[uploads[i].filename] == process(uploads[i])
  {
    var n := |uploads|;
    var init, last := uploads[..n - 1], uploads[n - 1];
    if i < n - 1 {
      assert init[i] == uploads[i];
      forall j | i < j < |init| ensures init[j].filename != init[i].filename {
        assert init[j] == uploads[j];
      }
      LastUploadWins(init, process, i);
    }
  }

  /** Parsing happens exactly when the gate passes; a parsed record always has
      the six fields, and otherwise the result is the empty record with no
      accuracy, no mismatches and no error. */
  lemma ParsedIffGate(ext: string, text: string, db: Database)
    ensures ProcessExtractedText(ext, text, db).Processed?
    ensures ProcessExtractedText(ext, text, db).extractedText == text
    ensures PassesGate(ext, text)
            ==> forall f :: f in ProcessExtractedText(ext, text, db).structuredData <==> f in FieldNames
    ensures !PassesGate(ext, text)
            ==> ProcessExtractedText(ext, text, db) == Processed(text, map[], None, map[], None)
    ensures ProcessExtractedText(ext, text, db).structuredData != map[] <==> PassesGate(ext, text)
  {
    if PassesGate(ext, text) {
      assert SrNoKey in StructuredData(text);
    }
  }

  /** A comparison runs (the accuracy is set) exactly when the gate passes and the
      parsed serial number is a non-empty string; it is then the comparator's
      result against the row found under that exact serial number. */
  lemma ComparedIffSrNo(ext: string, text: string, db: Database)
    ensures ProcessExtractedText(ext, text, db).accuracy.Some?
            <==> PassesGate(ext, text) && StructuredData(text)[SrNoKey].Some?
                 && StructuredData(text)[SrNoKey].value != ""
    ensures ProcessExtractedText(ext, text, db).accuracy.Some? ==>
              var r := ProcessExtractedText(ext, text, db);
              var c := Compare(r.structuredData, GetDatabaseData(db, StructuredData(text)[SrNoKey].value));
              r.accuracy == Some(c.accuracy) && r.mismatchedFields == c.mismatches
              && r.comparisonError == c.error
  {
    if PassesGate(ext, text) {
      assert SrNoKey in StructuredData(text);
    }
  }

  /** A parsed text without a usable serial number reports that it cannot compare. */
  lemma NoSrNoNoComparison(ext: string, text: string, db: Database)
    requires PassesGate(ext, text)
    requires StructuredData(text)[SrNoKey] in {None, Some("")}
    ensures ProcessExtractedText(ext, text, db).accuracy == None
    ensures ProcessExtractedText(ext, text, db).mismatchedFields == map[]
    ensures ProcessExtractedText(ext, text, db).comparisonError == Some(SrNoMissing)
  {
    assert SrNoKey in StructuredData(text);
  }

  /** A usable serial number absent from the table gives accuracy 0 with the
      "not found in database" error. */
  lemma UnknownSrNo(ext: string, text: string, db: Database)
    requires PassesGate(ext, text)
    requires StructuredData(text)[SrNoKey].Some? && StructuredData(text)[SrNoKey].value != ""
    requires StructuredData(text)[SrNoKey].value !in db
    ensures ProcessExtractedText(ext, text, db).accuracy == Some(0.0)
    ensures ProcessExtractedText(ext, text, db).mismatchedFields == map[]
    ensures ProcessExtractedText(ext, text, db).comparisonError == Some(DbNotFound)
  {
    assert SrNoKey in StructuredData(text);
  }

  /** The gate tests only for the literal prefix "Error": every backend error
      message starting with "Error" is stopped, but the OCR service's own error
      report "OCR Space API Error: ..." is parsed like extracted text. */
  lemma ErrorPrefixGate(ext: string, message: string)
    requires ext in SupportedExtensions
    ensures !PassesGate(ext, "Error connecting to OCR Space API: " + message)
    ensures !PassesGate(ext, "Error extracting text from PDF: " + message)
    ensures !PassesGate(ext, "Error during OCR processing: " + message)
    ensures !PassesGate(ext, "Error extracting text from DOCX: " + message)
    ensures PassesGate(ext, "OCR Space API Error: " + message)
  {
    assert ("OCR Space API Error: " + message)[..5] == "OCR S";
    assert ("Error connecting to OCR Space API: " + message)[..5] == "Error";
    assert ("Error extracting text from PDF: " + message)[..5] == "Error";
    assert ("Error during OCR processing: " + message)[..5] == "Error";
    assert ("Error extracting text from DOCX: " + message)[..5] == "Error";
  }

  /** The gate's extensions are exactly those a backend reads. */
  lemma GateMatchesDispatch(ext: string)
    ensures ext in SupportedExtensions <==> BackendFor(ext) != Unsupported
  {
  }

  /** A file no backend reads gets the unsupported-format text and is never parsed. */
  lemma UnsupportedNeverParsed(u: Upload, db: Database)
    requires u.filename != "" && Dispatch(u.filename) == Unsupported
    ensures ProcessUpload(u, db) == Processed(UnsupportedFormat, map[], None, map[], None)
  {
    GateMatchesDispatch(FileExtension(u.filename));
  }

  /** A file a backend reads is parsed exactly when that backend's text is
      non-empty and does not start with "Error". */
  lemma SupportedParsedIffText(u: Upload, db: Database)
    requires u.filename != "" && Dispatch(u.filename) != Unsupported
    ensures ProcessUpload(u, db).Processed?
    ensures ProcessUpload(u, db).structuredData != map[]
            <==> ExtractTextFromFile(u.filename, u.outputs) != ""
                 && !StartsWith(ExtractTextFromFile(u.filename, u.outputs), "Error")
  {
    GateMatchesDispatch(FileExtension(u.filename));
    ParsedIffGate(FileExtension(u.filename), ExtractTextFromFile(u.filename, u.outputs), db);
  }
}
