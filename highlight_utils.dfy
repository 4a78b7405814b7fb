/** The conversion of a stored highlight into the record the PDF viewer's
    highlighter component displays (front-end/app/utils/utils.ts). The random
    id source `getNextId` is a parameter. */
module HighlightUtils {
  import opened Types

  datatype Content = Content(text: string, image: Option<string>)

  /** A rectangle in page coordinates, with the page size it was measured
      against and its page. */
  datatype Scaled = Scaled(x1: real, y1: real, x2: real, y2: real, width: real, height: real, pageNumber: int)

  datatype Position = Position(boundingRect: Scaled, rects: seq<Scaled>, pageNumber: int)

  datatype Comment = Comment(text: string, emoji: string)

  datatype IHighlight = IHighlight(content: Content, position: Position, comment: Comment, id: string)

  /** The displayable form of `h` under the id `nextId`: one rectangle, the
      bounding one, on h's page; the text shown both as content and as
      comment. */
  function StoredHighlightToIHighlight(h: StoredHighlight, nextId: string): (r: IHighlight)
    ensures r.position.rects == [r.position.boundingRect]
    ensures r.position.pageNumber == r.position.boundingRect.pageNumber == h.pageNumber
    ensures r.comment == Comment(r.content.text, "")
    ensures r.id == nextId
  {
    var rect := Scaled(h.x1, h.y1, h.x2, h.y2, h.width, h.height, h.pageNumber);
    IHighlight(Content(h.text, h.image), Position(rect, [rect], h.pageNumber), Comment(h.text, ""), nextId)
  }

  /** The stored highlight a displayed one was made from, given the three
      fields the conversion drops. */
  function ToStored(ih: IHighlight, pdfId: string, lineNumber: Option<int>, keyword: Option<string>): StoredHighlight
  {
    var b := ih.position.boundingRect;
    StoredHighlight(pdfId, ih.position.pageNumber, lineNumber, b.x1, b.y1, b.x2, b.y2, b.width, b.height,
                    ih.content.text, ih.content.image, keyword)
  }

  /** Nothing but `pdfId`, `lineNumber` and `keyword` is lost: putting those
      back recovers the stored highlight, whatever id was drawn. */
  lemma ConversionRoundTrip(h: StoredHighlight, nextId: string)
    ensures ToStored(StoredHighlightToIHighlight(h, nextId), h.pdfId, h.lineNumber, h.keyword) == h
  {
  }

  /** Two stored highlights agree on everything the viewer shows. */
  predicate SameDisplay(h1: StoredHighlight, h2: StoredHighlight)
  {
    && h1.pageNumber == h2.pageNumber
    && h1.x1 == h2.x1 && h1.y1 == h2.y1 && h1.x2 == h2.x2 && h1.y2 == h2.y2
    && h1.width == h2.width && h1.height == h2.height
    && h1.text == h2.text && h1.image == h2.image
  }

  /** Under the same id, two stored highlights convert to the same record
      exactly when they agree on what the viewer shows: `pdfId`, `lineNumber`
      and `keyword` play no part. */
  lemma ConversionIgnoresDropped(h1: StoredHighlight, h2: StoredHighlight, nextId: string)
    ensures StoredHighlightToIHighlight(h1, nextId) == StoredHighlightToIHighlight(h2, nextId) <==> SameDisplay(h1, h2)
  {
    if StoredHighlightToIHighlight(h1, nextId) == StoredHighlightToIHighlight(h2, nextId) {
      ConversionRoundTrip(h1, nextId);
      ConversionRoundTrip(h2, nextId);
    }
  }
}
