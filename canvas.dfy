/** The part of reportlab's `canvas.Canvas` the converter drives: strings
    drawn at a position on the current page, `showPage` to close it, and
    `save` to write the document out. Fonts and the PDF byte stream are
    not modelled; a saved document is its sequence of pages. */
module Canvas {

  /** One `drawString(x, y, text)` call. */
  datatype Draw = Draw(x: int, y: int, text: string)

  type Page = seq<Draw>

  type Document = seq<Page>

  class PdfCanvas {
    /** The pages closed by `showPage`, in order. */
    var closed: seq<Page>
    /** What has been drawn on the page that is still open. */
    var current: Page

    constructor ()
      ensures closed == [] && current == []
    {
      closed := [];
      current := [];
    }

    /** `drawString`: the string goes onto the open page. */
    method DrawString(x: int, y: int, text: string)
      modifies this
      ensures closed == old(closed)
      ensures current == old(current) + [Draw(x, y, text)]
    {
      current := current + [Draw(x, y, text)];
    }

    /** `showPage`: the open page is closed and a blank one begins. */
    method ShowPage()
      modifies this
      ensures closed == old(closed) + [old(current)]
      ensures current == []
    {
      closed := closed + [current];
      current := [];
    }

    /** The document `save` writes. The converter sets a font on every
        page it opens, so the last page is never empty in the PDF stream
        and is always written, even when nothing was drawn on it. */
    function Saved(): (d: Document)
      reads this
      ensures |d| == |closed| + 1 && d[..|closed|] == closed && d[|closed|] == current
    {
      closed + [current]
    }
  }
}
