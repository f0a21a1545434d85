/** The object table of `make_pdf`: `add_obj` numbers the indirect objects
    1, 2, 3, ... in the order they are added (font, then content stream and
    page for each page, then the page tree, then the catalog); each page is
    added with the placeholder `/Parent 0 0 R`, which is patched once the page
    tree's number is known. */
module PdfObjects {
  import opened PyText
  import opened Config
  import ContentStream

  // ---------------------------------------------------------------------------
  // Object bodies
  // ---------------------------------------------------------------------------

  const FontDict: string := "<< /Type /Font /Subtype /Type1 /BaseFont /Helvetica >>"

  /** The dictionary and data of a content stream: `/Length` is the number of
      bytes of the Latin-1 encoded stream. */
  function ContentDict(stream: string): string {
    "<< /Length " + Dec(|Encode(stream)|) + " >>\nstream\n" + stream + "\nendstream"
  }

  /** The stored (encoded) content-stream object. */
  function ContentObject(stream: string): string {
    Encode(ContentDict(stream))
  }

  /** The reference to the parent page tree inside a page dictionary. */
  function ParentRef(parent: nat): string {
    "/Parent " + Dec(parent) + " 0 R"
  }

  /** The text the page dictionary is written with before the page tree exists. */
  const Placeholder: string := "/Parent 0 0 R"

  /** What follows the parent reference in a page dictionary. */
  function PageTail(font: nat, content: nat): string {
    " /MediaBox [0 0 " + Dec(PageWidth) + " " + Dec(PageHeight) + "] " +
    "/Resources << /Font << /F1 " + Dec(font) + " 0 R >> >> /Contents " + Dec(content) + " 0 R >>"
  }

  const PageHead: string := "<< /Type " + "/Page "

  /** A page dictionary whose parent is object `parent`. */
  function PageDict(parent: nat, font: nat, content: nat): string {
    PageHead + ParentRef(parent) + PageTail(font, content)
  }

  /** `f"{x} 0 R"` for every page, as the page tree lists them. */
  function KidRefs(ids: seq<nat>): seq<string> {
    seq(|ids|, i requires 0 <= i < |ids| => Dec(ids[i]) + " 0 R")
  }

  function PagesDict(ids: seq<nat>): string {
    "<< /Type /Pages /Kids [" + Join(" ", KidRefs(ids)) + "] /Count " + Dec(|ids|) + " >>"
  }

  function CatalogDict(pages: nat): string {
    "<< /Type /Catalog /Pages " + Dec(pages) + " 0 R >>"
  }

  // ---------------------------------------------------------------------------
  // The object list
  // ---------------------------------------------------------------------------

  /** Page k's content stream is object 2k+2, its page object 2k+3. */
  function ContentId(k: nat): nat { 2 * k + 2 }

  function PageId(k: nat): nat { 2 * k + 3 }

  /** `page_obj_ids` for `count` pages. */
  function PageIds(count: nat): (ids: seq<nat>)
    ensures |ids| == count
  {
    seq(count, k requires 0 <= k < count => PageId(k))
  }

  /** Entry `i` of the content/page run as `add_obj` stores it: content
      stream `i / 2` when `i` is even, its page, still naming the placeholder
      parent, when `i` is odd. */
  function PageObject(streams: seq<string>, i: nat): string
    requires i < 2 * |streams|
  {
    if i % 2 == 0 then ContentObject(streams[i / 2]) else Encode(PageDict(0, 1, ContentId(i / 2)))
  }

  /** The content and page objects of the given streams, in the order added. */
  function PageObjects(streams: seq<string>): (objs: seq<string>)
    ensures |objs| == 2 * |streams|
  {
    seq(2 * |streams|, i requires 0 <= i < 2 * |streams| => PageObject(streams, i))
  }

  lemma PageObjectsSnoc(streams: seq<string>, s: string)
    ensures PageObjects(streams + [s])
         == PageObjects(streams) + [ContentObject(s), Encode(PageDict(0, 1, ContentId(|streams|)))]
  {
    var all := streams + [s];
    var n := |streams|;
    var tail := [ContentObject(s), Encode(PageDict(0, 1, ContentId(n)))];
    forall i | 0 <= i < 2 * n + 2
      ensures PageObjects(all)[i] == (PageObjects(streams) + tail)[i]
    {
      if i < 2 * n {
        assert all[i / 2] == streams[i / 2];
        assert PageObject(all, i) == PageObject(streams, i);
      } else {
        assert i / 2 == n && all[n] == s;
      }
    }
  }

  /** The table once every object has been added, before the patch loop. */
  function Registered(streams: seq<string>): (objs: seq<string>)
    ensures |objs| == 2 * |streams| + 3
  {
    var count := |streams|;
    [Encode(FontDict)] + PageObjects(streams) +
    [Encode(PagesDict(PageIds(count))), Encode(CatalogDict(2 * count + 2))]
  }

  /** The list after `objects[id - 1] = objects[id - 1].replace(pat, rep)` for
      each `id` of `ids` in turn. */
  function Patched(objs: seq<string>, ids: seq<nat>, pat: string, rep: string): (r: seq<string>)
    requires forall k | 0 <= k < |ids| :: 1 <= ids[k] <= |objs|
    ensures |r| == |objs|
    decreases |ids|
  {
    if ids == [] then objs
    else
      var prev := Patched(objs, ids[..|ids| - 1], pat, rep);
      var at := ids[|ids| - 1] - 1;
      prev[at := ReplaceAll(prev[at], pat, rep)]
  }

  /** With distinct numbers, each listed object is replaced once and every
      other object is left as it was. */
  lemma {:induction false} PatchedAt(objs: seq<string>, ids: seq<nat>, pat: string, rep: string, i: nat)
    requires forall k | 0 <= k < |ids| :: 1 <= ids[k] <= |objs|
    requires forall a, b | 0 <= a < b < |ids| :: ids[a] != ids[b]
    requires i < |objs|
    ensures Patched(objs, ids, pat, rep)[i]
         == if i + 1 in ids then ReplaceAll(objs[i], pat, rep) else objs[i]
    decreases |ids|
  {
    if ids != [] {
      var front := ids[..|ids| - 1];
      PatchedAt(objs, front, pat, rep, i);
      assert ids == front + [ids[|ids| - 1]];
      if i + 1 == ids[|ids| - 1] {
        assert i + 1 !in front;
      }
    }
  }

  /** The table `make_pdf` serialises: the registered objects with every page
      patched to name the page tree, object 2P+2. */
  function Objects(streams: seq<string>): (objs: seq<string>)
    ensures |objs| == 2 * |streams| + 3
  {
    var count := |streams|;
    Patched(Registered(streams), PageIds(count), Placeholder, ParentRef(2 * count + 2))
  }

  /** The content streams of the pages. */
  function Streams(pages: seq<seq<string>>): (streams: seq<string>)
    ensures |streams| == |pages|
  {
    seq(|pages|, k requires 0 <= k < |pages| => ContentStream.Stream(pages[k]))
  }

  lemma StreamAt(pages: seq<seq<string>>, k: nat)
    requires k < |pages|
    ensures Streams(pages)[k] == ContentStream.Stream(pages[k])
  {
  }

  // ---------------------------------------------------------------------------
  // Encoding of the ASCII dictionaries
  // ---------------------------------------------------------------------------

  /** The decimal digits of a number hold no byte above 127, no slash and no 'P'. */
  lemma DecPlain(n: nat)
    ensures IsLatin1(Dec(n)) && '/' !in Dec(n) && 'P' !in Dec(n)
  {
    var d := Dec(n);
    assert forall i | 0 <= i < |d| :: IsDigit(d[i]);
  }

  lemma ParentRefLatin1(parent: nat)
    ensures IsLatin1(ParentRef(parent))
  {
    DecPlain(parent);
    Latin1Append("/Parent ", Dec(parent));
    Latin1Append("/Parent " + Dec(parent), " 0 R");
  }

  lemma PageTailLatin1(font: nat, content: nat)
    ensures IsLatin1(PageTail(font, content))
  {
    DecPlain(PageWidth);
    DecPlain(PageHeight);
    DecPlain(font);
    DecPlain(content);
    var p1 := " /MediaBox [0 0 " + Dec(PageWidth);
    Latin1Append(" /MediaBox [0 0 ", Dec(PageWidth));
    var p2 := p1 + " ";
    Latin1Append(p1, " ");
    var p3 := p2 + Dec(PageHeight);
    Latin1Append(p2, Dec(PageHeight));
    var p4 := p3 + "] ";
    Latin1Append(p3, "] ");
    var p5 := p4 + "/Resources << /Font << /F1 ";
    Latin1Append(p4, "/Resources << /Font << /F1 ");
    var p6 := p5 + Dec(font);
    Latin1Append(p5, Dec(font));
    var p7 := p6 + " 0 R >> >> /Contents ";
    Latin1Append(p6, " 0 R >> >> /Contents ");
    var p8 := p7 + Dec(content);
    Latin1Append(p7, Dec(content));
    Latin1Append(p8, " 0 R >>");
  }

  lemma PageDictLatin1(parent: nat, font: nat, content: nat)
    ensures IsLatin1(PageDict(parent, font, content))
  {
    ParentRefLatin1(parent);
    PageTailLatin1(font, content);
    Latin1Append(PageHead, ParentRef(parent));
    Latin1Append(PageHead + ParentRef(parent), PageTail(font, content));
  }

  /** `/Length` states the exact number of bytes stored between `stream\n`
      and `\nendstream`. */
  lemma ContentLength(stream: string)
    ensures var payload := Encode(stream);
      ContentObject(stream) == "<< /Length " + Dec(|payload|) + " >>\nstream\n" + payload + "\nendstream"
  {
    var n := Dec(|Encode(stream)|);
    DecPlain(|Encode(stream)|);
    Latin1Append("<< /Length ", n);
    Latin1Append("<< /Length " + n, " >>\nstream\n");
    var head := "<< /Length " + n + " >>\nstream\n";
    EncodeAppend(head, stream);
    EncodeAppend(head + stream, "\nendstream");
    EncodeLatin1(head);
    EncodeLatin1("\nendstream");
  }

  // ---------------------------------------------------------------------------
  // The parent patch
  // ---------------------------------------------------------------------------

  lemma Assoc(a: string, b: string, c: string)
    ensures a + b + c == a + (b + c)
  {
  }

  /** A name such as `/Page` that differs from `/Parent` at position `k`
      cannot start the placeholder: the name is copied unchanged. */
  lemma SkipName(word: string, k: nat, rest: string, rep: string)
    requires |word| >= 1 && word[0] == '/' && '/' !in word[1..]
    requires 1 <= k < |word| && k < |Placeholder| && word[k] != Placeholder[k]
    ensures ReplaceAll(word + rest, Placeholder, rep) == word + ReplaceAll(rest, Placeholder, rep)
    ensures Contains(word + rest, Placeholder) == Contains(rest, Placeholder)
  {
    var s := word + rest;
    assert s[k] == word[k];
    SkipOne(s, Placeholder, rep);
    assert s[1..] == word[1..] + rest;
    SkipClear(word[1..], rest, Placeholder, rep);
  }

  /** Nothing in `<< /Type /Page ` can start an occurrence of the placeholder. */
  lemma SkipPageHead(rest: string, rep: string)
    ensures ReplaceAll(PageHead + rest, Placeholder, rep) == PageHead + ReplaceAll(rest, Placeholder, rep)
    ensures Contains(PageHead + rest, Placeholder) == Contains(rest, Placeholder)
  {
    var w := "/Page ";
    assert w[1..] == "Page ";
    SkipName(w, 3, rest, rep);
    assert NoMatchStart("<< /Type ", Placeholder);
    SkipPrefix("<< /Type ", w + rest, Placeholder, rep);
    Assoc("<< /Type ", w, rest);
    Assoc("<< /Type ", w, ReplaceAll(rest, Placeholder, rep));
  }

  /** What follows the parent reference never holds the placeholder: it has
      no 'P'. */
  lemma TailClear(font: nat, content: nat)
    ensures !Contains(PageTail(font, content), Placeholder)
  {
    DecPlain(PageWidth);
    DecPlain(PageHeight);
    DecPlain(font);
    DecPlain(content);
    assert 'P' !in PageTail(font, content);
    LacksSecond(PageTail(font, content), Placeholder);
  }

  lemma ParentZero()
    ensures ParentRef(0) == Placeholder
  {
    assert Dec(0) == "0";
  }

  /** `.replace(b"/Parent 0 0 R", f"/Parent {pages_obj} 0 R".encode())` on the
      stored bytes of a page written with the placeholder gives the page
      pointing at the page tree, and changes nothing else in it. */
  lemma PatchPage(parent: nat, font: nat, content: nat)
    ensures ReplaceAll(Encode(PageDict(0, font, content)), Placeholder, ParentRef(parent))
         == PageDict(parent, font, content)
  {
    PageDictLatin1(0, font, content);
    EncodeLatin1(PageDict(0, font, content));
    var tail := PageTail(font, content);
    var rep := ParentRef(parent);
    ParentZero();
    Assoc(PageHead, Placeholder, tail);
    SkipPageHead(Placeholder + tail, rep);
    ReplaceFront(Placeholder, tail, rep);
    TailClear(font, content);
    ReplaceAbsent(tail, Placeholder, rep);
    Assoc(PageHead, rep, tail);
  }

  /** A parent reference whose number does not start with '0' is not the
      placeholder, and no occurrence starts inside it. */
  lemma RefSkipped(d: string, tail: string)
    requires |d| >= 1 && d[0] != '0' && '/' !in d
    ensures Contains("/Parent " + d + " 0 R" + tail, Placeholder) == Contains(tail, Placeholder)
  {
    var name := "Parent " + d + " 0 R";
    var s := "/Parent " + d + " 0 R" + tail;
    assert s[8] == d[0];
    assert s[..|Placeholder|] != Placeholder by {
      assert s[..|Placeholder|][8] != Placeholder[8];
    }
    SkipOne(s, Placeholder, Placeholder);
    assert s[1..] == name + tail;
    SkipClear(name, tail, Placeholder, Placeholder);
  }

  /** Once patched with a real object number, a page holds no placeholder. */
  lemma PatchedHasNoPlaceholder(parent: nat, font: nat, content: nat)
    requires parent >= 1
    ensures !Contains(PageDict(parent, font, content), Placeholder)
  {
    var tail := PageTail(font, content);
    var ref := ParentRef(parent);
    Assoc(PageHead, ref, tail);
    SkipPageHead(ref + tail, Placeholder);
    DecPlain(parent);
    RefSkipped(Dec(parent), tail);
    TailClear(font, content);
  }

  // ---------------------------------------------------------------------------
  // The object graph
  // ---------------------------------------------------------------------------

  /** Page numbers are odd, distinct and within the table. */
  lemma PageIdsWellFormed(count: nat)
    ensures forall k | 0 <= k < count :: PageIds(count)[k] == PageId(k) && 1 <= PageId(k) <= 2 * count + 3
    ensures forall a, b | 0 <= a < b < count :: PageIds(count)[a] != PageIds(count)[b]
    ensures forall i :: i in PageIds(count) <==> (i % 2 == 1 && 3 <= i <= 2 * count + 1)
  {
    forall i | i % 2 == 1 && 3 <= i <= 2 * count + 1
      ensures i in PageIds(count)
    {
      assert PageIds(count)[(i - 3) / 2] == i;
    }
  }

  /** The patch loop over the page numbers leaves every other object alone. */
  lemma PatchKeeps(objs: seq<string>, count: nat, rep: string, i: nat)
    requires |objs| == 2 * count + 3 && i < |objs|
    requires i % 2 == 1 || i == 0 || i == 2 * count + 2
    ensures Patched(objs, PageIds(count), Placeholder, rep)[i] == objs[i]
  {
    PageIdsWellFormed(count);
    assert i + 1 !in PageIds(count);
    PatchedAt(objs, PageIds(count), Placeholder, rep, i);
  }

  /** ... and rewrites each page object once. */
  lemma PatchRewrites(objs: seq<string>, count: nat, rep: string, k: nat)
    requires |objs| == 2 * count + 3 && k < count
    ensures Patched(objs, PageIds(count), Placeholder, rep)[PageId(k) - 1]
         == ReplaceAll(objs[PageId(k) - 1], Placeholder, rep)
  {
    PageIdsWellFormed(count);
    assert PageIds(count)[k] == PageId(k);
    PatchedAt(objs, PageIds(count), Placeholder, rep, PageId(k) - 1);
  }

  lemma RunIndex(first: string, run: seq<string>, tree: string, root: string, i: nat)
    requires i < |run|
    ensures ([first] + run + [tree, root])[i + 1] == run[i]
  {
  }

  lemma FixedIndex(first: string, run: seq<string>, tree: string, root: string)
    ensures var s := [first] + run + [tree, root];
      s[0] == first && s[|run| + 1] == tree && s[|run| + 2] == root
  {
  }

  /** Entry i of the content/page run is object i + 2 ... */
  lemma RegisteredRun(streams: seq<string>, i: nat)
    requires i < 2 * |streams|
    ensures Registered(streams)[i + 1] == PageObject(streams, i)
  {
    var count := |streams|;
    RunIndex(Encode(FontDict), PageObjects(streams), Encode(PagesDict(PageIds(count))),
      Encode(CatalogDict(2 * count + 2)), i);
  }

  /** ... the font is object 1, the page tree and the catalog the last two. */
  lemma RegisteredFixed(streams: seq<string>)
    ensures var count := |streams|;
      Registered(streams)[0] == Encode(FontDict) &&
      Registered(streams)[2 * count + 1] == Encode(PagesDict(PageIds(count))) &&
      Registered(streams)[2 * count + 2] == Encode(CatalogDict(2 * count + 2))
  {
    var count := |streams|;
    FixedIndex(Encode(FontDict), PageObjects(streams), Encode(PagesDict(PageIds(count))),
      Encode(CatalogDict(2 * count + 2)));
  }

  lemma PageObjectAt(streams: seq<string>, k: nat)
    requires k < |streams|
    ensures PageObject(streams, 2 * k) == ContentObject(streams[k])
    ensures PageObject(streams, 2 * k + 1) == Encode(PageDict(0, 1, ContentId(k)))
  {
    assert (2 * k) / 2 == k && (2 * k + 1) / 2 == k;
  }

  /** Before the patch, object 2k+2 is page k's content stream ... */
  lemma RegisteredContent(streams: seq<string>, k: nat)
    requires k < |streams|
    ensures Registered(streams)[ContentId(k) - 1] == ContentObject(streams[k])
  {
    RunContent(streams, k);
    PageObjectAt(streams, k);
  }

  lemma RunContent(streams: seq<string>, k: nat)
    requires k < |streams|
    ensures Registered(streams)[ContentId(k) - 1] == PageObject(streams, 2 * k)
  {
    var i := 2 * k;
    assert ContentId(k) - 1 == i + 1;
    RegisteredRun(streams, i);
  }

  /** ... and object 2k+3 its page, naming the placeholder parent. */
  lemma RegisteredPage(streams: seq<string>, k: nat)
    requires k < |streams|
    ensures Registered(streams)[PageId(k) - 1] == Encode(PageDict(0, 1, ContentId(k)))
  {
    RunPage(streams, k);
    PageObjectAt(streams, k);
  }

  lemma RunPage(streams: seq<string>, k: nat)
    requires k < |streams|
    ensures Registered(streams)[PageId(k) - 1] == PageObject(streams, 2 * k + 1)
  {
    var i := 2 * k + 1;
    assert PageId(k) - 1 == i + 1;
    RegisteredRun(streams, i);
  }

  lemma ContentSlot(streams: seq<string>, k: nat)
    requires k < |streams|
    ensures Objects(streams)[ContentId(k) - 1] == ContentObject(streams[k])
  {
    PatchKeepsContent(streams, k);
    RegisteredContent(streams, k);
  }

  lemma PatchKeepsContent(streams: seq<string>, k: nat)
    requires k < |streams|
    ensures Objects(streams)[ContentId(k) - 1] == Registered(streams)[ContentId(k) - 1]
  {
    var count := |streams|;
    PatchKeeps(Registered(streams), count, ParentRef(2 * count + 2), ContentId(k) - 1);
  }

  /** After the patch, page k's object is its registered page with the
      placeholder replaced. */
  lemma PatchedPageSlot(streams: seq<string>, k: nat)
    requires k < |streams|
    ensures Objects(streams)[PageId(k) - 1]
         == ReplaceAll(Encode(PageDict(0, 1, ContentId(k))), Placeholder, ParentRef(2 * |streams| + 2))
  {
    PatchRewritesPage(streams, k);
    RegisteredPage(streams, k);
  }

  lemma PatchRewritesPage(streams: seq<string>, k: nat)
    requires k < |streams|
    ensures Objects(streams)[PageId(k) - 1]
         == ReplaceAll(Registered(streams)[PageId(k) - 1], Placeholder, ParentRef(2 * |streams| + 2))
  {
    var count := |streams|;
    PatchRewrites(Registered(streams), count, ParentRef(2 * count + 2), k);
  }

  /** The patch turns page k's stored bytes into its dictionary naming the
      page tree. */
  lemma PatchPageAt(streams: seq<string>, k: nat)
    requires k < |streams|
    ensures ReplaceAll(Encode(PageDict(0, 1, ContentId(k))), Placeholder, ParentRef(2 * |streams| + 2))
         == PageDict(2 * |streams| + 2, 1, ContentId(k))
  {
    PatchPage(2 * |streams| + 2, 1, ContentId(k));
  }

  lemma PageSlotValue(streams: seq<string>, k: nat)
    requires k < |streams|
    ensures Objects(streams)[PageId(k) - 1] == PageDict(2 * |streams| + 2, 1, ContentId(k))
  {
    PatchedPageSlot(streams, k);
    PatchPageAt(streams, k);
  }

  /** Page k names the page tree and holds no placeholder. */
  lemma PageClean(streams: seq<string>, k: nat)
    requires k < |streams|
    ensures !Contains(PageDict(2 * |streams| + 2, 1, ContentId(k)), Placeholder)
  {
    PatchedHasNoPlaceholder(2 * |streams| + 2, 1, ContentId(k));
  }

  lemma PageSlot(streams: seq<string>, k: nat)
    requires k < |streams|
    ensures Objects(streams)[PageId(k) - 1] == PageDict(2 * |streams| + 2, 1, ContentId(k))
    ensures !Contains(Objects(streams)[PageId(k) - 1], Placeholder)
  {
    PageSlotValue(streams, k);
    PageClean(streams, k);
  }

  lemma FixedSlot(streams: seq<string>, i: nat)
    requires i == 0 || i == 2 * |streams| + 1 || i == 2 * |streams| + 2
    ensures Objects(streams)[i] == Registered(streams)[i]
  {
    var count := |streams|;
    PatchKeeps(Registered(streams), count, ParentRef(2 * count + 2), i);
  }

  lemma FixedSlots(streams: seq<string>)
    ensures var count := |streams|;
      Objects(streams)[0] == Encode(FontDict) &&
      Objects(streams)[2 * count + 1] == Encode(PagesDict(PageIds(count))) &&
      Objects(streams)[2 * count + 2] == Encode(CatalogDict(2 * count + 2))
  {
    var count := |streams|;
    FixedSlot(streams, 0);
    FixedSlot(streams, 2 * count + 1);
    FixedSlot(streams, 2 * count + 2);
    RegisteredFixed(streams);
  }

  /** Every reference in the table points where it should: object 1 is the
      font; for page k, object 2k+2 is its content stream and object 2k+3 its
      page, naming font 1, content 2k+2 and parent 2P+2, with no placeholder
      left; object 2P+2 is the page tree listing objects 3, 5, ..., 2P+1 and
      counting P pages; object 2P+3, the last, is the catalog naming the page
      tree. */
  lemma ObjectGraph(streams: seq<string>)
    ensures var objs := Objects(streams);
      var count := |streams|;
      |objs| == 2 * count + 3 &&
      objs[0] == Encode(FontDict) &&
      (forall k | 0 <= k < count ::
        objs[ContentId(k) - 1] == ContentObject(streams[k]) &&
        objs[PageId(k) - 1] == PageDict(2 * count + 2, 1, ContentId(k)) &&
        !Contains(objs[PageId(k) - 1], Placeholder)) &&
      objs[2 * count + 1] == Encode(PagesDict(PageIds(count))) &&
      (forall k | 0 <= k < count :: PageIds(count)[k] == PageId(k)) &&
      objs[2 * count + 2] == Encode(CatalogDict(2 * count + 2))
  {
    FixedSlots(streams);
    PageIdsWellFormed(|streams|);
    forall k | 0 <= k < |streams|
      ensures Objects(streams)[ContentId(k) - 1] == ContentObject(streams[k])
      ensures Objects(streams)[PageId(k) - 1] == PageDict(2 * |streams| + 2, 1, ContentId(k))
      ensures !Contains(Objects(streams)[PageId(k) - 1], Placeholder)
    {
      ContentSlot(streams, k);
      PageSlot(streams, k);
    }
  }

  /** Every registered object went through `encode("latin-1", "replace")`. */
  lemma RegisteredLatin1(streams: seq<string>)
    ensures AllLatin1(Registered(streams))
  {
    var count := |streams|;
    var font, pages, catalog := Encode(FontDict), Encode(PagesDict(PageIds(count))), Encode(CatalogDict(2 * count + 2));
    EncodeBytes(FontDict);
    EncodeBytes(PagesDict(PageIds(count)));
    EncodeBytes(CatalogDict(2 * count + 2));
    PageObjectsLatin1(streams);
    AllLatin1Append([font], PageObjects(streams));
    AllLatin1Append([font] + PageObjects(streams), [pages, catalog]);
  }

  lemma PageObjectsLatin1(streams: seq<string>)
    ensures AllLatin1(PageObjects(streams))
  {
    forall i | 0 <= i < 2 * |streams|
      ensures IsLatin1(PageObjects(streams)[i])
    {
      PageObjectLatin1(streams, i);
    }
  }

  lemma PageObjectLatin1(streams: seq<string>, i: nat)
    requires i < 2 * |streams|
    ensures IsLatin1(PageObject(streams, i))
  {
    if i % 2 == 0 {
      EncodeBytes(ContentDict(streams[i / 2]));
    } else {
      EncodeBytes(PageDict(0, 1, ContentId(i / 2)));
    }
  }

  /** Replacing by a byte string keeps every object a byte string. */
  lemma {:induction false} PatchedLatin1(objs: seq<string>, ids: seq<nat>, pat: string, rep: string)
    requires forall k | 0 <= k < |ids| :: 1 <= ids[k] <= |objs|
    requires AllLatin1(objs) && IsLatin1(rep)
    ensures AllLatin1(Patched(objs, ids, pat, rep))
    decreases |ids|
  {
    if ids != [] {
      var front := ids[..|ids| - 1];
      PatchedLatin1(objs, front, pat, rep);
      var prev := Patched(objs, front, pat, rep);
      var at := ids[|ids| - 1] - 1;
      ReplaceLatin1(prev[at], pat, rep);
    }
  }

  /** Every object `make_pdf` serialises is a byte string. */
  lemma ObjectsLatin1(streams: seq<string>)
    ensures AllLatin1(Objects(streams))
  {
    var count := |streams|;
    RegisteredLatin1(streams);
    PageIdsWellFormed(count);
    ParentRefLatin1(2 * count + 2);
    PatchedLatin1(Registered(streams), PageIds(count), Placeholder, ParentRef(2 * count + 2));
  }

  // ---------------------------------------------------------------------------
  // add_obj and the registration of all objects
  // ---------------------------------------------------------------------------

  /** The list `objects` that `add_obj` appends to. */
  class ObjectTable {
    var objects: seq<string>

    constructor ()
      ensures objects == []
    {
      objects := [];
    }

    /** `add_obj`: store the encoded body and return its number, the new
        length of the list. */
    method Add(data: string) returns (id: nat)
      modifies this
      ensures objects == old(objects) + [Encode(data)]
      ensures id == |objects|
    {
      objects := objects + [Encode(data)];
      id := |objects|;
    }
  }

  /** The loop over `page_obj_ids` that rewrites each page's parent reference. */
  method PatchParents(table: ObjectTable, ids: seq<nat>, rep: string)
    requires forall k | 0 <= k < |ids| :: 1 <= ids[k] <= |table.objects|
    modifies table
    ensures table.objects == Patched(old(table.objects), ids, Placeholder, rep)
  {
    ghost var before := table.objects;
    for j := 0 to |ids|
      invariant table.objects == Patched(before, ids[..j], Placeholder, rep)
    {
      assert ids[..j + 1][..j] == ids[..j];
      var id := ids[j];
      table.objects := table.objects[id - 1 := ReplaceAll(table.objects[id - 1], Placeholder, rep)];
    }
    assert ids[..|ids|] == ids;
  }

  /** The page loop of `make_pdf`: a content stream and a page (still with the
      placeholder parent) per page. */
  method AddPages(table: ObjectTable, pages: seq<seq<string>>, fontObj: nat, ghost head: seq<string>)
    returns (contentObjIds: seq<nat>, pageObjIds: seq<nat>)
    requires fontObj == 1 && table.objects == head && |head| == 1
    modifies table
    ensures table.objects == head + PageObjects(Streams(pages))
    ensures |contentObjIds| == |pageObjIds| == |pages|
    ensures forall k | 0 <= k < |pages| :: contentObjIds[k] == ContentId(k) && pageObjIds[k] == PageId(k)
  {
    ghost var streams := Streams(pages);
    pageObjIds := [];
    contentObjIds := [];
    for k := 0 to |pages|
      invariant table.objects == head + PageObjects(streams[..k])
      invariant |pageObjIds| == |contentObjIds| == k
      invariant forall j | 0 <= j < k :: contentObjIds[j] == ContentId(j) && pageObjIds[j] == PageId(j)
    {
      ghost var before := table.objects;
      var contentObj, pageObj := AddPage(table, pages[k], fontObj);
      contentObjIds := contentObjIds + [contentObj];
      pageObjIds := pageObjIds + [pageObj];
      AddedPage(head, streams, k, before, fontObj, contentObj);
    }
    assert streams[..|pages|] == streams;
  }

  /** The body of the page loop: build the page's stream, add it, then add
      the page naming it, with the placeholder parent. */
  method AddPage(table: ObjectTable, pageLines: seq<string>, fontObj: nat)
    returns (contentObj: nat, pageObj: nat)
    modifies table
    ensures table.objects
         == old(table.objects) + [ContentObject(ContentStream.Stream(pageLines)), Encode(PageDict(0, fontObj, contentObj))]
    ensures contentObj == |old(table.objects)| + 1 && pageObj == contentObj + 1
  {
    var stream := ContentStream.BuildContentStream(pageLines);
    contentObj := table.Add(ContentDict(stream));
    pageObj := table.Add(PageDict(0, fontObj, contentObj));
  }

  /** One turn of the page loop appends the page's two objects. */
  lemma AddedPage(head: seq<string>, streams: seq<string>, k: nat, before: seq<string>, fontObj: nat, contentObj: nat)
    requires k < |streams| && before == head + PageObjects(streams[..k])
    requires fontObj == 1 && contentObj == ContentId(k)
    ensures before + [ContentObject(streams[k]), Encode(PageDict(0, fontObj, contentObj))]
         == head + PageObjects(streams[..k + 1])
  {
    assert streams[..k + 1] == streams[..k] + [streams[k]];
    PageObjectsSnoc(streams[..k], streams[k]);
  }

  /** The page numbers the loop collected are `PageIds`. */
  lemma IdsArePageIds(ids: seq<nat>, count: nat)
    requires |ids| == count
    requires forall k | 0 <= k < count :: ids[k] == PageId(k)
    ensures ids == PageIds(count)
    ensures forall k | 0 <= k < |ids| :: 1 <= ids[k] <= 2 * count + 3
  {
  }

  /** The font, the page run, the page tree and the catalog, in the order
      they were added, are the registered list. */
  lemma RegisteredAll(head: seq<string>, streams: seq<string>, ids: seq<nat>, pagesObj: nat)
    requires head == [Encode(FontDict)] && ids == PageIds(|streams|) && pagesObj == 2 * |streams| + 2
    ensures head + PageObjects(streams) + [Encode(PagesDict(ids))] + [Encode(CatalogDict(pagesObj))]
         == Registered(streams)
  {
  }

  /** Lines 48-73 of `make_pdf`: the font, a content stream and a page per
      page, the page tree and the catalog, then the parent patch. */
  method RegisterObjects(pages: seq<seq<string>>)
    returns (objects: seq<string>, fontObj: nat, contentObjIds: seq<nat>, pageObjIds: seq<nat>,
             pagesObj: nat, catalogObj: nat)
    ensures objects == Objects(Streams(pages))
    ensures fontObj == 1 && pagesObj == 2 * |pages| + 2 && catalogObj == 2 * |pages| + 3
    ensures catalogObj == |objects|
    ensures |contentObjIds| == |pageObjIds| == |pages|
    ensures forall k | 0 <= k < |pages| :: contentObjIds[k] == ContentId(k) && pageObjIds[k] == PageId(k)
  {
    var table := new ObjectTable();
    fontObj := table.Add(FontDict);
    ghost var head := table.objects;
    contentObjIds, pageObjIds := AddPages(table, pages, fontObj, head);
    ghost var streams := Streams(pages);
    IdsArePageIds(pageObjIds, |pages|);
    pagesObj := table.Add(PagesDict(pageObjIds));
    catalogObj := table.Add(CatalogDict(pagesObj));
    RegisteredAll(head, streams, pageObjIds, pagesObj);
    PatchParents(table, pageObjIds, ParentRef(pagesObj));
    objects := table.objects;
  }

}
