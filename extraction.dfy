/**
  Extension dispatch: the file name's suffix after the last `.`, lowercased,
  selects one of the three text-extraction backends (OCR for images, the PDF
  reader, the DOCX reader) or none. The backends themselves are external; what
  each one returns for the file is passed in as a string.
 */
module Extraction {
  import opened Text

  /** The image suffixes sent to the OCR service. */
  const ImageExtensions: seq<string> := ["png", "jpg", "jpeg", "bmp", "gif", "tiff"]

  const UnsupportedFormat: string := "Unsupported file format."

  /** Which backend reads a file. */
  datatype Backend = Ocr | Pdf | Docx | Unsupported

  /** What each external backend returns for the uploaded file (its text, or its
      own error message). */
  datatype BackendOutputs = BackendOutputs(ocr: string, pdf: string, docx: string)

  /** `rsplit('.', 1)[-1]`: the part after the last dot, or the whole name when
      there is no dot. */
  function AfterLastDot(f: string): (r: string)
    ensures '.' !in r
    ensures |r| <= |f| && r == f[|f| - |r|..]
    ensures '.' in f ==> |r| < |f| && f[|f| - |r| - 1] == '.'
    ensures '.' !in f ==> r == f
  {
    if f == [] then []
    else if f[|f| - 1] == '.' then []
    else
      var p := AfterLastDot(f[..|f| - 1]);
      assert '.' in f[..|f| - 1] <==> '.' in f;
      p + [f[|f| - 1]]
  }

  /** A name made of a stem, a dot and a dot-free suffix has that suffix after
      its last dot. */
  lemma {:induction false} AfterLastDotOfSuffix(stem: string, ext: string)
    requires '.' !in ext
    ensures AfterLastDot(stem + ['.'] + ext) == ext
  {
    var f := stem + ['.'] + ext;
    if ext != [] {
      var e := ext[..|ext| - 1];
      assert f[..|f| - 1] == stem + ['.'] + e;
      AfterLastDotOfSuffix(stem, e);
      assert ext == e + [ext[|ext| - 1]];
    }
  }

  /** The lowercased suffix after the last dot, or `""` when the name has no dot. */
  function FileExtension(filename: string): (r: string)
    ensures '.' !in filename ==> r == ""
    ensures r == "" || |r| < |filename|
  {
    if '.' in filename then Lower(AfterLastDot(filename)) else ""
  }

  /** The extension is already lower case and never contains a dot. */
  lemma FileExtensionLowered(filename: string)
    ensures Lower(FileExtension(filename)) == FileExtension(filename)
    ensures '.' !in FileExtension(filename)
  {
    var ext := FileExtension(filename);
    if '.' in filename {
      LowerIdempotent(AfterLastDot(filename));
      if '.' in ext {
        var i :| 0 <= i < |ext| && ext[i] == '.';
        LowerAt(AfterLastDot(filename), i);
      }
    }
  }

  /** `stem.EXT` has extension `lower(EXT)` whatever the stem, dots included. */
  lemma FileExtensionOfName(stem: string, ext: string)
    requires '.' !in ext
    ensures FileExtension(stem + ['.'] + ext) == Lower(ext)
  {
    assert (stem + ['.'] + ext)[|stem|] == '.';
    AfterLastDotOfSuffix(stem, ext);
  }

  /** The backend for an extension. */
  function BackendFor(ext: string): (b: Backend)
    ensures b == Ocr <==> ext in ImageExtensions
    ensures b == Pdf <==> ext == "pdf"
    ensures b == Docx <==> ext == "docx"
    ensures b == Unsupported <==> ext !in ImageExtensions + ["pdf", "docx"]
  {
    if ext in ImageExtensions then Ocr
    else if ext == "pdf" then Pdf
    else if ext == "docx" then Docx
    else Unsupported
  }

  /** The backend that reads `filename`. */
  function Dispatch(filename: string): (b: Backend)
    ensures b != Unsupported ==> '.' in filename
    ensures b == Unsupported <==> FileExtension(filename) !in ImageExtensions + ["pdf", "docx"]
  {
    BackendFor(FileExtension(filename))
  }

  /** The letter case of the suffix does not change the backend, and only the
      suffix after the last dot counts. */
  lemma DispatchIgnoresCase(stem: string, ext: string)
    requires '.' !in ext
    ensures Dispatch(stem + ['.'] + ext) == BackendFor(Lower(ext))
  {
    FileExtensionOfName(stem, ext);
  }

  /** A name with no dot is never read. */
  lemma NoDotUnsupported(filename: string)
    requires '.' !in filename
    ensures FileExtension(filename) == ""
    ensures Dispatch(filename) == Unsupported
  {
  }

  /** The text obtained for an upload: the selected backend's output, or the
      fixed unsupported-format message. */
  function ExtractTextFromFile(filename: string, outputs: BackendOutputs): (r: string)
    ensures '.' !in filename ==> r == UnsupportedFormat
    ensures Dispatch(filename) != Unsupported ==> r in [outputs.ocr, outputs.pdf, outputs.docx]
  {
    match Dispatch(filename)
    case Ocr => outputs.ocr
    case Pdf => outputs.pdf
    case Docx => outputs.docx
    case Unsupported => UnsupportedFormat
  }

  /** For `stem.EXT`: images (in any letter case) give the OCR text, `pdf` the
      PDF text, `docx` the DOCX text, and every other suffix the fixed message. */
  lemma ExtractTextOfName(stem: string, ext: string, outputs: BackendOutputs)
    requires '.' !in ext
    ensures Lower(ext) in ImageExtensions ==> ExtractTextFromFile(stem + ['.'] + ext, outputs) == outputs.ocr
    ensures Lower(ext) == "pdf" ==> ExtractTextFromFile(stem + ['.'] + ext, outputs) == outputs.pdf
    ensures Lower(ext) == "docx" ==> ExtractTextFromFile(stem + ['.'] + ext, outputs) == outputs.docx
    ensures Lower(ext) !in ImageExtensions + ["pdf", "docx"]
            ==> ExtractTextFromFile(stem + ['.'] + ext, outputs) == UnsupportedFormat
  {
    DispatchIgnoresCase(stem, ext);
  }
}
