/**
 * `extract_text`: choose a reader from the file's extension, join what it
 * yields with newlines, and turn every failure into the empty string.
 * The readers themselves (PDF pages, DOCX paragraphs, charset detection
 * and decoding of plain text) are foreign; what one of them yields for a
 * file is given as a `Reading`.
 */
module Extraction {
  import opened Text

  /** The reader chosen for a path. */
  datatype Format = Pdf | Docx | Txt | Unsupported

  /**
   * What the foreign reader produced for a file: the text of each page (PDF),
   * of each paragraph (DOCX) or the one decoded text (plain text); or the
   * message of the exception it raised (missing, corrupt, undecodable file).
   */
  datatype Reading = Units(units: seq<string>) | Raised(message: string)

  /** Extension dispatch; `.pdf` is tested first, then `.docx`, then `.txt`. */
  function FormatOf(path: string): (f: Format)
    ensures f == Unsupported <==> !EndsWith(path, ".pdf") && !EndsWith(path, ".docx") && !EndsWith(path, ".txt")
    ensures f == Pdf ==> EndsWith(path, ".pdf")
    ensures f == Docx ==> EndsWith(path, ".docx")
    ensures f == Txt ==> EndsWith(path, ".txt")
  {
    if EndsWith(path, ".pdf") then Pdf
    else if EndsWith(path, ".docx") then Docx
    else if EndsWith(path, ".txt") then Txt
    else Unsupported
  }

  /** `extract_text(path)`, given what the reader for `path` yields. */
  function ExtractText(path: string, reading: Reading): (text: string)
    ensures FormatOf(path) == Unsupported ==> text == ""
    ensures reading.Raised? ==> text == ""
    ensures text != "" ==> FormatOf(path) != Unsupported && reading.Units? && reading.units != []
  {
    if FormatOf(path) == Unsupported then ""
    else match reading
      case Raised(_) => ""
      case Units(units) => Join("\n", units)
  }

  /**
   * For a supported file whose units hold no newline, the extracted text
   * splits back into exactly those units: no page or paragraph is lost or merged.
   */
  lemma ExtractTextKeepsUnits(path: string, units: seq<string>)
    requires FormatOf(path) != Unsupported
    requires |units| >= 1
    requires forall k :: 0 <= k < |units| ==> '\n' !in units[k]
    ensures SplitOn('\n', ExtractText(path, Units(units))) == units
  {
    SplitOnJoin('\n', units);
  }
}
