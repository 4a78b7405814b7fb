/** Records shared by the store, the ingestion route and the extraction helpers
    (app/utils/types.ts and front-end/app/utils/types.ts). JavaScript numbers are
    modelled as `real` for coordinates and as `int` for page and line numbers;
    optional members (`lineNumber?`, `image?`, `pdf?`) become `Option`. */
module Types {

  datatype Option<+T> = None | Some(value: T)

  /** The exceptions the modelled code throws or propagates. */
  datatype Error =
    | DimensionMismatch  // sqlite-vec refuses a vector that is not FLOAT32[512]
    | NotFound           // a row that the code destructures is missing
    | EmptyLine          // processLine called with no items

  datatype Result<+T> = Success(value: T) | Failure(error: Error)

  /** A row of the `pdfs` metadata table. */
  datatype StoredPdf = StoredPdf(id: string, name: string, numPages: int, url: string)

  /** One highlightable unit: a text line (positive lineNumber) or an image
      region (negative lineNumber). `keyword` is declared as a string but the
      extraction helpers never set it, so it is optional here. */
  datatype StoredHighlight = StoredHighlight(
    pdfId: string,
    pageNumber: int,
    lineNumber: Option<int>,
    x1: real,
    y1: real,
    x2: real,
    y2: real,
    width: real,
    height: real,
    text: string,
    image: Option<string>,
    keyword: Option<string>)

  /** Where a search hit lives: the document's metadata row (absent when the
      `pdfs` table has no row for it) and the unit's page and line. */
  datatype PdfLocation = PdfLocation(pdf: Option<StoredPdf>, pageNumber: int, lineNumber: int)

  datatype SearchResult = SearchResult(pdfPage: PdfLocation, id: int, distance: real)

  /** The two members of a pdf.js page viewport that the helpers read. */
  datatype Viewport = Viewport(width: real, height: real)

  /** Some element of a non-empty set: the order in which a table scan meets
      its rows, which the model does not fix. */
  method Pick<T>(s: set<T>) returns (x: T)
    requires s != {}
    ensures x in s
  {
    x :| x in s;
  }

  function Min(a: real, b: real): real { if a <= b then a else b }

  function Max(a: real, b: real): real { if a <= b then b else a }

  function Abs(a: real): real { if a < 0.0 then -a else a }
}
