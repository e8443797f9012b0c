# Text-to-verdict pipeline of the document checker, in Dafny

The application takes uploaded documents and turns each one into a verdict in
four steps:

1. It picks a text-extraction backend from the file name's extension: OCR for
   images, a PDF reader, or a DOCX reader.
2. It parses six labelled fields (`Sr no.`, `Name`, `City`, `Age`, `Country`,
   `Address`) out of the extracted text.
3. It looks up the reference record stored under the parsed serial number.
4. It scores the parsed record against that reference: an accuracy
   percentage plus a report of every mismatching field.

This project models those four steps and the per-file decision that connects
them, and proves what each step guarantees.

Modules, one file each:

- `wrappers.dfy` (`Wrappers`): `Option`, standing for Python's `None`.
- `text.dfy` (`Text`): the string primitives the parser relies on.
  - Python's whitespace set.
  - `strip`/`lstrip`/`rstrip`.
  - ASCII lower-casing.
  - `startswith`.
  - `split('\n')` and `join`.
  - Slice lemmas.
- `field_parser.dfy` (`FieldParser`): `extract_structured_data`.
  - `ExtractStructuredData` is a method with the same nested loops and `break`. It is proved equal to `StructuredData`.
  - `StructuredData` is a function built on `FirstMatch`, which scans for the first matching line.
  - The regular expression `^\s*LABEL\s*:\s*(.*)` (case-insensitive, applied to the stripped line and followed by stripping the group) is the explicit scanner `MatchField`.
  - `MatchField` is proved equivalent, in both directions, to `LabelledAt`, which reads a labelled line independently of how the line is scanned: a colon with exactly the label before it (up to case and surrounding whitespace), and the stripped remainder as the value.
- `comparator.dfy` (`Comparator`): `compare_data`.
  - `CompareData` is a method with the counting loop over the reference keys. It is proved equal to the function `Compare`.
  - Partition, accuracy and mismatch lemmas.
- `extraction.dfy` (`Extraction`): the extension logic of `extract_text_from_file`.
  - The suffix after the last dot, lower-cased.
  - The choice of backend.
  - The fixed `"Unsupported file format."` text.
- `pipeline.dfy` (`Pipeline`):
  - `get_database_data`.
  - The per-file gate and comparison decision inside `index`.
  - The loop that stores one result per file name.

The reference table (`dummy_database`) is a parameter of type
`map<string, map<string, string>>`. What each backend returns for a file is a
parameter too (`BackendOutputs`), because the OCR web service, the PDF reader
and the DOCX reader are external.

Accuracy is an exact `real`, `(matched / total) * 100`, guarded by `total > 0`
as in the code.

The gate before parsing tests the literal prefix `"Error"`. The OCR path reports service failures as `"OCR Space API Error: ..."`, which does
not start with `"Error"`. That text therefore passes the gate and is parsed
as if it were document text. `Pipeline.ErrorPrefixGate` states this
behaviour.

## Model

| member | source | states |
|---|---|---|
| Text.Strip | app.py:98 | `str.strip()`: the result starts and ends with non-whitespace and is no longer than the input |
| Text.StripBounds | app.py:110-112 | what `strip()` keeps is a contiguous slice with only whitespace removed before and after it, and an all-whitespace string strips to empty |
| Text.StripPadded | app.py:110-112 | stripping any whitespace padding around an already stripped string gives that string back |
| Text.TrimLeftDropsSpaces | app.py:107 | the leading `\s*` skip removes exactly a whitespace prefix and keeps the rest unchanged |
| Text.Lower | app.py:107 | ASCII lower-casing for `re.IGNORECASE` keeps the length |
| Text.LowerIdempotent | app.py:76 | lower-casing twice is lower-casing once |
| Text.StartsWith | app.py:256 | `str.startswith`: a text that starts with a prefix is at least as long and agrees with it character by character |
| Text.Split | app.py:98 | `split('\n')` yields at least one piece, and no piece contains the separator |
| Text.JoinSplit | app.py:98 | joining the pieces of `split('\n')` with `'\n'` gives the text back (no character is lost) |
| Text.SplitJoin | app.py:98 | splitting a join of separator-free pieces gives the pieces back |
| FieldParser.PatternMatch | app.py:107-112 | the compiled pattern applied with `match` to a stripped line, then the group stripped: a value it returns is stripped and shorter than the line minus the label |
| FieldParser.MatchField | app.py:110-112 | one line tried against one field (the pattern on `line.strip()`): a value it returns is stripped and shorter than the line |
| FieldParser.FirstMatch | app.py:109-115 | the scan from the top that stops at the first matching line: a value it returns is stripped |
| FieldParser.StructuredData | app.py:89-117 | the parsed record: exactly the six field keys, every present value stripped |
| FieldParser.ExtractStructuredData | app.py:89-117 | the record has exactly the six field keys; each holds the first matching line's value or `None`; equals `StructuredData(text)` |
| FieldParser.Lines | app.py:98 | the scanned lines are the pieces of the stripped text: joined with `'\n'` they give the stripped text |
| FieldParser.MatchFieldSpec | app.py:107-112 | a line yields `Some(v)` exactly when it has a colon with only the label (any case, whitespace around it) before it and `v` is the stripped rest |
| FieldParser.MatchFieldSound | app.py:107-112 | every match comes from such a colon, and the returned value is the stripped text after it |
| FieldParser.MatchFieldComplete | app.py:107-112 | every `label : value` line matches, with that value |
| FieldParser.NoColonNoMatch | app.py:107 | a line without a colon (a bare label) never matches |
| FieldParser.LabelOnlyGivesEmpty | app.py:112 | `Name:` (whitespace allowed around) yields the present-but-empty value `""`, not `None` |
| FieldParser.LongerWordNoMatch | app.py:107 | a longer word beginning with the label (`Names: x` for `Name`) does not match |
| FieldParser.FirstMatchSpec | app.py:109-115 | the field's value is `v` exactly when some line yields `v` and no line above it matches |
| FieldParser.FirstMatchNone | app.py:95-96 | the field stays `None` exactly when no line matches |
| FieldParser.LaterLinesIgnored | app.py:115 | lines after the first match cannot change the value (the `break`) |
| FieldParser.ParsedField | app.py:100-115 | in the parsed record a field holds `Some(v)` exactly when some line reads `field: v` and no earlier line matches that field |
| FieldParser.AbsentField | app.py:94-96 | a field is `None` exactly when no line of the stripped text matches it |
| Comparator.Get | app.py:218 | `dict.get`: an absent key reads as `None` |
| Comparator.Accuracy | app.py:224 | `(matched / total) * 100` with the `total > 0` guard: within [0, 100] whenever `matched <= total`, and 100 when everything matched |
| Comparator.Compare | app.py:208-225 | the triple `compare_data` returns: an error exactly for a missing or empty reference, accuracy within [0, 100], mismatch keys among the reference keys |
| Comparator.CompareData | app.py:208-225 | the counting loop returns the comparison defined by `Compare`: accuracy from the matched count, the mismatch map, no error; or the fixed error triple |
| Comparator.CountOneMore | app.py:217-222 | one loop step: a matching key raises the count by one and leaves the mismatches unchanged; any other key adds its `{db_value, extracted_value}` entry and leaves the count unchanged |
| Comparator.PartitionKeys | app.py:213-222 | matched keys and mismatch keys split the reference keys, so `matched + len(mismatches) == len(db_data)` |
| Comparator.AccuracyRange | app.py:224 | `(matched/total)*100` lies in [0, 100], times `total` it is `matched*100`, and it is 100 exactly when all fields matched |
| Comparator.NoReferenceRow | app.py:210-211 | a missing or empty reference gives `(0, {}, "Sr no. not found in database.")` |
| Comparator.MismatchesExact | app.py:217-222 | the mismatch keys are exactly the reference keys whose extracted value differs, each with both values, and the error is `None` |
| Comparator.MissingKeyComparedAsNone | app.py:218-222 | a reference key absent from the parsed record is a mismatch with extracted value `None` |
| Comparator.ExtraKeysIgnored | app.py:217 | parsed keys outside the reference do not affect the result |
| Comparator.AccuracyMeaning | app.py:213-225 | accuracy lies in [0, 100], is the share of reference keys that are not mismatches, and is 100 exactly when the mismatch map is empty |
| Comparator.PerfectMatch | app.py:217-225 | a record reproducing every reference value scores 100 with no mismatches and no error |
| Extraction.AfterLastDot | app.py:76 | `rsplit('.', 1)[-1]`: a dot-free suffix of the name, preceded by a dot when the name has one, and the whole name otherwise |
| Extraction.AfterLastDotOfSuffix | app.py:76 | for `stem.EXT` with a dot-free `EXT`, the part after the last dot is `EXT`, whatever dots the stem contains |
| Extraction.FileExtension | app.py:76 | the lower-cased suffix after the last dot: `""` for a name without a dot, and otherwise shorter than the name |
| Extraction.FileExtensionLowered | app.py:76 | the extension is lower case and contains no dot |
| Extraction.FileExtensionOfName | app.py:76 | `stem.EXT` has extension `lower(EXT)` |
| Extraction.BackendFor | app.py:78-85 | OCR exactly for `png/jpg/jpeg/bmp/gif/tiff`, PDF exactly for `pdf`, DOCX exactly for `docx`, unsupported for everything else |
| Extraction.Dispatch | app.py:76-85 | the backend for a file name: unsupported exactly when the extension is none of the six image types, `pdf` or `docx`; a name with no dot is never dispatched |
| Extraction.ExtractTextFromFile | app.py:74-85 | the text for an upload: one of the backend outputs when a backend reads the file, `"Unsupported file format."` for a name without a dot |
| Extraction.DispatchIgnoresCase | app.py:76-85 | the backend for `stem.EXT` depends only on `lower(EXT)` |
| Extraction.NoDotUnsupported | app.py:76-85 | a name with no dot has the empty extension and is not read |
| Extraction.ExtractTextOfName | app.py:74-85 | for `stem.EXT` the text is the OCR, PDF or DOCX output by the lower-cased suffix, and `"Unsupported file format."` otherwise |
| Pipeline.GetDatabaseData | app.py:203-205 | exact-key lookup: a row exactly when the serial number is a key, and then that key's row |
| Pipeline.PassesGate | app.py:256-257 | the gate: non-empty text, not starting with `"Error"`, supported extension; any extension it admits is one a backend reads |
| Pipeline.ProcessExtractedText | app.py:250-264 | the gate, then parse, then look up and compare, as pure branches: the text is kept; an accuracy or comparison error appears only behind the gate; a comparison never carries the "cannot compare" error; no accuracy means no mismatches |
| Pipeline.ProcessUpload | app.py:239-264 | one upload from its name to its result: `NoSelectedFile` exactly for the empty name; a parsed record only for a file a backend reads |
| Pipeline.Results | app.py:238-266 | the results table after the upload loop: its keys are exactly the uploaded file names, a later upload overwriting an earlier one |
| Pipeline.UsableSrNo | app.py:259-260 | the serial number is used exactly when it is present and non-empty (`None` and `""` are both false) |
| Pipeline.ParsedIffGate | app.py:251-258 | the text is parsed (non-empty record with the six keys) exactly when it is non-empty, does not start with `"Error"` and the extension is supported; otherwise the result is the empty record with no accuracy, mismatches or error |
| Pipeline.ComparedIffSrNo | app.py:256-262 | an accuracy is produced exactly when the text is parsed and its `Sr no.` is a non-empty string; it is then `compare_data` against the row under that exact key |
| Pipeline.NoSrNoNoComparison | app.py:263-264 | a parsed text whose `Sr no.` is `None` or `""` gets no accuracy and the "cannot compare" error |
| Pipeline.UnknownSrNo | app.py:261-262 | a serial number missing from the table gives accuracy 0 and the "not found in database" error |
| Pipeline.ErrorPrefixGate | app.py:256 | the four backend messages starting with `"Error"` (OCR connection and OCR processing at app.py:48-50, PDF at app.py:59, DOCX at app.py:71) are stopped by the `"Error"` prefix test, but `"OCR Space API Error: ..."` passes it |
| Pipeline.GateMatchesDispatch | app.py:78-85 | the gate's extension list is exactly the set of extensions a backend reads |
| Pipeline.UnsupportedNeverParsed | app.py:250-257 | a file no backend reads gets `"Unsupported file format."` and is never parsed |
| Pipeline.SupportedParsedIffText | app.py:250-258 | a file a backend reads is parsed exactly when that backend's text is non-empty and does not start with `"Error"` |
| Pipeline.ProcessUploads | app.py:238-272 | the loop over uploads stores one result per file name, `NoSelectedFile` for an empty name; the keys are exactly the uploaded names |
| Pipeline.LastUploadWins | app.py:266 | a file name's entry is the result of the last upload with that name |

## Left out

- Web plumbing is not modelled: Flask routing, `request.files`, the "No file part" reply, templates and the context processor.
- Filesystem effects are not modelled: saving and removing the temporary file.
- The `if image_file:` test is not modelled. It is always true once the name is non-empty.
- The three backends are external: the OCR web service (HTTP call, API key), the PDF reader and the DOCX reader. Each backend's returned string, whether text or error message, is an input (`BackendOutputs`).
  - Their internal formatting is not modelled: stripping, joining paragraphs, and the wording of their messages.
  - `Pipeline.ErrorPrefixGate` uses the message prefixes as written in the source.
- Accuracy is exact: Python's float rounding of `matched / total * 100` is not modelled, and neither is the int `0` versus float distinction in the error triple.
- Only ASCII lower-casing is modelled. Python's Unicode case folding under `re.IGNORECASE` is not. The labels are ASCII.
- Only the ASCII members of Python's whitespace set are modelled: space, tab, line feed, carriage return, vertical tab, form feed and `\x1c`–`\x1f`. The other Unicode spaces that `strip()` and `\s` also accept are not.
- Records and result tables are maps, so Python's dict insertion order is not modelled. This affects only display order.
- The contents of `dummy_database` (app.py:119-200) are not modelled. The table is a parameter.
- Extraction.ExtractTextFromFile: only the selection among the backend outputs is modelled, not what each backend computes from the file.

