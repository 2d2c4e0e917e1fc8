/**
 * The drawing surface `saveAsPDF` writes to. The PDF library itself is not
 * modelled: a page is the log of the operations drawn on it, in order, and
 * the document is its list of pages.
 */
module PdfCanvas {

  /** The layout constants of `saveAsPDF`. */
  const Margin: real := 50.0
  const FontSize: real := 12.0
  const LineHeight: real := FontSize + 4.0

  /** `font.widthOfTextAtSize(text, size)`: the embedded font's metrics, left abstract. */
  type TextWidth = (string, real) -> real

  /** `rgb(0, 0, 0)` (the library default) and `rgb(0, 0, 1)`. */
  datatype Color = Black | Blue

  /** A PDF rectangle `[x1, y1, x2, y2]`. */
  datatype Rect = Rect(x1: real, y1: real, x2: real, y2: real)

  /** A `Link` annotation with border `[0, 0, 0]` and a `URI` action to `uri`. */
  datatype Annotation = LinkAnnotation(rect: Rect, uri: string)

  datatype DrawOp =
    | Text(text: string, x: real, y: real, color: Color)           // drawText at the font size
    | Line(x1: real, y1: real, x2: real, y2: real)                  // drawLine, thickness 1, blue
    | Image(x: real, y: real, width: real, height: real)            // drawImage of the footer
    | Annot(annotation: Annotation)                                 // an entry added to the page's Annots array

  /** A page of the document. */
  class PdfPage {
    var ops: seq<DrawOp>

    constructor ()
      ensures ops == []
    {
      ops := [];
    }

    /** One drawing call on this page. */
    method Draw(op: DrawOp)
      modifies this
      ensures ops == old(ops) + [op]
    {
      ops := ops + [op];
    }
  }

  /** `PDFDocument.create()` and `addPage()`. */
  class PdfDocument {
    var pages: seq<PdfPage>

    /** `PDFDocument.create()`: no pages yet. */
    constructor ()
      ensures pages == []
    {
      pages := [];
    }

    /** `pdfDoc.addPage()`: a fresh, empty page is added after the others and returned. */
    method AddPage() returns (page: PdfPage)
      modifies this
      ensures fresh(page) && page.ops == []
      ensures pages == old(pages) + [page]
    {
      page := new PdfPage();
      pages := pages + [page];
    }
  }
}
