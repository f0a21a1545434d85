/** `make_pdf`: wrap the text into lines, cut them into pages, register the
    objects and serialise the file. Writing the bytes to `output` is not part
    of this model; the method returns them. */
module PdfWriter {
  import opened PyText
  import Layout
  import Pagination
  import PdfObjects
  import ContentStream
  import XrefWriter

  /** The pages `make_pdf` lays out for `text`. */
  function PagesOf(text: string): seq<seq<string>> {
    Pagination.Paginate(Layout.RawLines(text))
  }

  /** The bytes `make_pdf` writes for `text`: the objects of its pages, the
      catalog (the last object) as root. */
  function Document(text: string): string {
    var pages := PagesOf(text);
    XrefWriter.PdfFile(PdfObjects.Objects(PdfObjects.Streams(pages)), 2 * |pages| + 3)
  }

  method MakePdf(text: string) returns (pdf: string)
    ensures pdf == Document(text)
    ensures IsLatin1(pdf)
  {
    var rawLines := Layout.BuildLines(text);
    var pages := Pagination.SplitPages(rawLines);
    var objects, fontObj, contentObjIds, pageObjIds, pagesObj, catalogObj := PdfObjects.RegisterObjects(pages);
    pdf := XrefWriter.Serialize(objects, catalogObj);
    PdfObjects.ObjectsLatin1(PdfObjects.Streams(pages));
    XrefWriter.FileLatin1(objects, catalogObj);
    DocumentOf(text);
  }

  /** `Document` spelled out, so that callers need not unfold it. */
  lemma DocumentOf(text: string)
    ensures Document(text)
         == XrefWriter.PdfFile(PdfObjects.Objects(PdfObjects.Streams(PagesOf(text))), 2 * |PagesOf(text)| + 3)
  {
  }

  /** The root `make_pdf` hands to the trailer, 2P + 3 for P pages, is the
      last object, the catalog, and it names the page tree; the page tree is
      the object before it and lists one page per page of text. With
      `XrefWriter.TrailerNamesRoot`, `XrefWriter.XrefFindsEveryObject` and
      `PdfObjects.ObjectGraph` this links every object of the file. */
  lemma DocumentIsLinked(pages: seq<seq<string>>)
    ensures var objs := PdfObjects.Objects(PdfObjects.Streams(pages));
      var root := 2 * |pages| + 3;
      root == |objs| &&
      objs[root - 1] == Encode(PdfObjects.CatalogDict(root - 1)) &&
      objs[root - 2] == Encode(PdfObjects.PagesDict(PdfObjects.PageIds(|pages|)))
  {
    PdfObjects.FixedSlots(PdfObjects.Streams(pages));
  }

  /** There are ceil(n / 52) pages for n wrapped lines. */
  lemma PageCount(text: string)
    ensures |PagesOf(text)| == (|Layout.RawLines(text)| + 51) / 52
  {
    Pagination.PaginateShape(Layout.RawLines(text));
  }

  /** Every page of the document shows between 1 and 52 lines, and the pages
      hold the wrapped lines in order. */
  lemma PagesAreLaidOut(text: string)
    ensures var pages := PagesOf(text);
      Layout.Flatten(pages) == Layout.RawLines(text) &&
      forall k | 0 <= k < |pages| :: 0 < |pages[k]| <= 52
  {
    Pagination.PaginateShape(Layout.RawLines(text));
  }

  /** Page k's lines are drawn by the stream of object 2k+2, which page
      object 2k+3 references; its parent is the page tree. */
  lemma PagesAreDrawn(pages: seq<seq<string>>)
    ensures var streams := PdfObjects.Streams(pages);
      var objs := PdfObjects.Objects(streams);
      forall k | 0 <= k < |pages| ::
        objs[PdfObjects.ContentId(k) - 1] == PdfObjects.ContentObject(ContentStream.Stream(pages[k])) &&
        objs[PdfObjects.PageId(k) - 1] == PdfObjects.PageDict(2 * |streams| + 2, 1, PdfObjects.ContentId(k))
  {
    forall k | 0 <= k < |pages| {
      PageDrawn(pages, k);
    }
  }

  lemma PageDrawn(pages: seq<seq<string>>, k: nat)
    requires k < |pages|
    ensures var streams := PdfObjects.Streams(pages);
      var objs := PdfObjects.Objects(streams);
      objs[PdfObjects.ContentId(k) - 1] == PdfObjects.ContentObject(ContentStream.Stream(pages[k])) &&
      objs[PdfObjects.PageId(k) - 1] == PdfObjects.PageDict(2 * |streams| + 2, 1, PdfObjects.ContentId(k))
  {
    var streams := PdfObjects.Streams(pages);
    PdfObjects.StreamAt(pages, k);
    PdfObjects.ContentSlot(streams, k);
    PdfObjects.PageSlotValue(streams, k);
  }
}
