# A verified model of the dependency-free PDF writer

`tools/generate_pdf.py` turns plain text into the bytes of a PDF 1.4 file
(ISO 32000-1:2008) without any library. It has five stages:

1. It splits the text into paragraphs (`str.splitlines`).
2. It wraps every paragraph to 92 columns with `textwrap.wrap`. A blank paragraph becomes one empty line.
3. It cuts the lines into pages of 52.
4. It draws each page with a content stream of text operators.
5. It numbers the objects with `add_obj`, patches every page's placeholder parent reference once the page tree exists, and writes the file while recording each object's byte offset for the cross-reference table.

The Dafny project models each stage in the form the source has:

- **Pure functions** become Dafny functions:
  - `escape_pdf_text`;
  - the Python built-ins it relies on: `str.replace`, `str.join`, `str.splitlines`, `str.strip`, `f"{n}"` and `f"{n:010d}"`;
  - the `textwrap` algorithm for the options the source passes.
- **Loops** (`split_pages`, `build_content_stream`, the line loop, the page loop, the patch loop and the two serialisation loops) become methods with loop invariants. Each method is proved equal to a reference function, and the properties are proved as lemmas about those functions.
- **The `add_obj` closure** over the `objects` list becomes the class `PdfObjects.ObjectTable`. Its field `objects` is appended to by `Add` and rewritten in place by the patch loop.

| file | module | models |
|---|---|---|
| `config.dfy` | `Config` | the page geometry constants |
| `pytext.dfy` | `PyText` | the Python string built-ins the writer uses, and `encode("latin-1", errors="replace")` |
| `escape.dfy` | `PdfEscape` | `escape_pdf_text` and the reader's unescaping |
| `layout.dfy` | `Layout` | `splitlines`, `textwrap.wrap(width=92, break_long_words=False, break_on_hyphens=False)`, the `raw_lines` loop |
| `pages.dfy` | `Pagination` | `split_pages` |
| `content.dfy` | `ContentStream` | `build_content_stream` |
| `objects.dfy` | `PdfObjects` | `add_obj`, the object bodies, the page loop, the parent patch |
| `xref.dfy` | `XrefWriter` | the header, the framed objects and their offsets, the xref table, the trailer |
| `make_pdf.dfy` | `PdfWriter` | `make_pdf` as a whole, returning the bytes |

Bytes are characters below 256. The bytes `make_pdf` hands to `output.write_bytes` are the result of `PdfWriter.MakePdf`, which is proved to hold only such characters.

## Model

| member | source | states |
|---|---|---|
| PdfEscape.Escape | tools/generate_pdf.py:16-17 | the three `str.replace` passes in the source's order: backslashes first, then `(`, then `)` |
| PdfEscape.EscapeIsPerCharacter | tools/generate_pdf.py:16-17 | the three chained replacements, backslash first, equal the per-character escape: exactly one backslash before each `\`, `(` and `)`, and every other character kept |
| PdfEscape.ThreePassesAreEach | tools/generate_pdf.py:17 | each pass replaces one character everywhere, and the three passes in that order put one backslash before each special character, so the backslash pass does not double the later ones |
| PdfEscape.EscapeRoundTrip | tools/generate_pdf.py:16-17 | a reader that takes the character after each backslash literally gets back exactly the line that was escaped |
| PdfEscape.EscapedIsBalanced | tools/generate_pdf.py:16-17 | the escaped text has no bare parenthesis and no dangling backslash, so the literal `( ... )` closes where the writer closes it |
| PdfEscape.EscapeLength | tools/generate_pdf.py:16-17 | escaping adds exactly one character per backslash or parenthesis |
| PyText.ReplaceSingle | tools/generate_pdf.py:17 | `str.replace` with a one-character pattern replaces every occurrence of that character, one at a time |
| PyText.SkipPrefix | tools/generate_pdf.py:73 | a prefix in which no occurrence of the pattern can start is copied unchanged by `replace`, and `replace` continues on what follows it |
| PyText.ReplaceAll | tools/generate_pdf.py:17 | `str.replace`: scanning left to right, every non-overlapping occurrence of the pattern is replaced and scanning resumes after it; an empty pattern inserts the replacement around every character |
| PyText.ReplaceLatin1 | tools/generate_pdf.py:73 | replacing within a byte string by a byte string gives a byte string |
| PyText.Encode | tools/generate_pdf.py:51 | `encode("latin-1", errors="replace")`: one byte per character, `?` for every character above 255, so the length is kept |
| Layout.BreakAt | tools/generate_pdf.py:40 | the first line boundary of `str.splitlines` is found: no boundary before it, and a boundary at it unless it is the end |
| Layout.SplitLines | tools/generate_pdf.py:40 | `str.splitlines()`: the text is cut at every line boundary, `\r\n` counts as one, and a boundary at the very end does not start an empty paragraph |
| Layout.ParagraphsHaveNoBreaks | tools/generate_pdf.py:40 | no paragraph `splitlines` produces contains a line boundary |
| Layout.Chunks | tools/generate_pdf.py:44 | `textwrap` cuts the munged paragraph into chunks that put together give it back; every chunk is non-empty and is either all spaces or holds no space |
| Layout.MungeKeeps | tools/generate_pdf.py:44 | every non-whitespace character of a paragraph survives tab expansion and whitespace translation |
| Layout.Fit | tools/generate_pdf.py:44 | the greedy fill takes the longest run of leading chunks that fits in the room left: the chunks taken fit, and one more would not |
| Layout.NextLine | tools/generate_pdf.py:44 | one pass of `textwrap`'s `_wrap_chunks`: a leading blank chunk is dropped once a line has been emitted, the greedy fill takes what fits in 92 columns, an over-long chunk is taken alone onto an empty line, a trailing blank chunk is dropped; fewer chunks are left than were given |
| Layout.WrapChunks | tools/generate_pdf.py:44 | `_wrap_chunks` repeats that pass until no chunk is left, emitting every non-empty line |
| Layout.Wrap | tools/generate_pdf.py:44 | `textwrap.wrap` with the writer's options: the munged paragraph's chunks wrapped, each line the concatenation of its chunks, one per chunk list |
| Layout.NextLineWidth | tools/generate_pdf.py:44 | one emitted line is at most 92 columns unless it is a single visible chunk, the only case `break_long_words=False` lets through |
| Layout.NextLineWords | tools/generate_pdf.py:44 | the whitespace chunks one line step drops hold no word: the words before are the line's words followed by the words left |
| Layout.WrapChunksShape | tools/generate_pdf.py:44 | every line the wrapper emits is non-empty, fits in 92 columns unless it is one visible chunk, and is built from the paragraph's chunks; the words of all lines, in order, are the words of the paragraph |
| Layout.WrapShape | tools/generate_pdf.py:44 | a paragraph that is not blank gives at least one line; no line is empty; each is at most 92 characters or a single word without spaces; and no word is lost, split or reordered |
| Layout.BlankParagraph | tools/generate_pdf.py:41-44 | a paragraph contributes exactly one empty line if and only if it is blank (`not paragraph.strip()`) |
| Layout.BuildLines | tools/generate_pdf.py:39-44 | the loop builds `raw_lines` as the lines of each paragraph in turn |
| Layout.RawLinesWidth | tools/generate_pdf.py:39-44 | every line of the document is at most 92 characters, or is one word without spaces that is longer |
| Layout.EmptyLinesAreParagraphBreaks | tools/generate_pdf.py:39-44 | the number of empty lines equals the number of blank paragraphs |
| Pagination.SplitPages | tools/generate_pdf.py:20-25 | the loop's pages are the reference pagination of the lines |
| Pagination.PageAt | tools/generate_pdf.py:23-24 | the slice `lines[i:i + 52]`, cut short at the end of the list, is the page that starts at line `i`, and the next page starts where it ends |
| Pagination.PaginateShape | tools/generate_pdf.py:20-25 | `lines_per_page` is 52; the pages put back together are the lines; every page holds 1 to 52 lines and every page but the last exactly 52; there are ceil(n / 52) pages, so no lines give no pages |
| ContentStream.BuildContentStream | tools/generate_pdf.py:28-35 | the loop's stream is the prologue, the line operators and `ET`, joined by newlines |
| ContentStream.LineOpsStep | tools/generate_pdf.py:30-33 | one loop turn appends a move (except for the first line) and the shown line |
| ContentStream.LineOpsLayout | tools/generate_pdf.py:30-33 | for n lines there are 2n - 1 line operators: line k's `(...) Tj` at position 2k, a `0 -{LINE_H} Td` move at every odd position, so exactly one `Tj` per line in order and n - 1 moves, one before each line after the first |
| ContentStream.MovesBetweenLines | tools/generate_pdf.py:30-33 | a line operator is a move exactly when its position is odd, so the n shown lines are separated by exactly n - 1 moves and no move is shown as text |
| ContentStream.ShowIsNotMove | tools/generate_pdf.py:32-33 | a shown line and a move are different operators, told apart by their first character |
| ContentStream.ShownTextReadsBack | tools/generate_pdf.py:33 | each shown line is `(` + escaped text + `) Tj`, the text is a balanced literal, and it reads back as the line |
| ContentStream.PrologueText | tools/generate_pdf.py:29 | the first three operators are `BT`, `/F1 11 Tf` and `50 790 Td` |
| ContentStream.StreamStart | tools/generate_pdf.py:29-35 | the stream starts with `BT`, `/F1 11 Tf` and `50 790 Td`, one per line |
| ContentStream.StreamEnd | tools/generate_pdf.py:34-35 | the stream ends with `ET` on a line of its own |
| PdfObjects.ObjectTable.Add | tools/generate_pdf.py:50-52 | `add_obj` appends the Latin-1 encoded body and returns the new length, its 1-based number |
| PdfObjects.ContentDict | tools/generate_pdf.py:60 | a content object is `<< /Length n >>`, `stream`, the stream and `endstream` on their own lines, where n is the length of the Latin-1 encoded stream |
| PdfObjects.PageDict | tools/generate_pdf.py:62-65 | a page names its parent, a 595 by 842 media box (A4 in points), font `/F1` and its content stream, by object number |
| PdfObjects.PagesDict | tools/generate_pdf.py:68-69 | the page tree lists `n 0 R` for every page number, separated by spaces, and counts them |
| PdfObjects.CatalogDict | tools/generate_pdf.py:70 | the catalog names the page tree by number |
| PdfObjects.AddPage | tools/generate_pdf.py:58-66 | one turn of the page loop appends the page's content stream and then its page, written with the placeholder parent and naming that stream; they get the next two numbers |
| PdfObjects.AddedPage | tools/generate_pdf.py:58-66 | after page k's turn the table holds the objects of pages 0..k, in order |
| PdfObjects.PageObjectsSnoc | tools/generate_pdf.py:58-66 | one more page adds exactly its content stream and its page at the end of the run |
| PdfObjects.AddPages | tools/generate_pdf.py:56-66 | the loop appends a content stream and a page per page; page k's stream gets number 2k+2 and its page 2k+3 |
| PdfObjects.RegisteredAll | tools/generate_pdf.py:54-70 | the font, the page run, the page tree and the catalog, in the order they are added, form the registered table |
| PdfObjects.RegisterObjects | tools/generate_pdf.py:48-73 | the table is the registered objects after the patch; the font is 1, the page tree 2P+2 and the catalog 2P+3, the last; the collected numbers are 2k+2 and 2k+3 |
| PdfObjects.ContentLength | tools/generate_pdf.py:60 | the stored content object's `/Length` is the number of bytes stored between `stream\n` and `\nendstream` |
| PdfObjects.PageIdsWellFormed | tools/generate_pdf.py:56-66 | the page numbers are exactly the odd numbers 3..2P+1, distinct and inside the table |
| PdfObjects.PatchParents | tools/generate_pdf.py:72-73 | the patch loop leaves the table as the reference patch of the listed numbers |
| PdfObjects.PatchedAt | tools/generate_pdf.py:72-73 | with distinct numbers, each listed object is replaced once and every other object is unchanged |
| PdfObjects.PatchKeeps | tools/generate_pdf.py:72-73 | the patch leaves the font, every content stream, the page tree and the catalog unchanged |
| PdfObjects.PatchRewrites | tools/generate_pdf.py:72-73 | the patch applies `replace` once to each page object |
| PdfObjects.PatchPage | tools/generate_pdf.py:73 | `replace(b"/Parent 0 0 R", f"/Parent {pages_obj} 0 R")` on a stored page turns it into the page naming the page tree, with nothing else changed |
| PdfObjects.PatchedHasNoPlaceholder | tools/generate_pdf.py:73 | a page that names a real parent (number at least 1) holds no `/Parent 0 0 R` |
| PdfObjects.TailClear | tools/generate_pdf.py:63-64 | the text after the parent reference in a page never contains the placeholder |
| PdfObjects.ContentSlot | tools/generate_pdf.py:58-61 | after the patch, object 2k+2 is page k's content stream |
| PdfObjects.PageSlot | tools/generate_pdf.py:62-73 | after the patch, object 2k+3 is page k's dictionary naming the page tree 2P+2, font 1 and content 2k+2, with no placeholder left |
| PdfObjects.FixedSlots | tools/generate_pdf.py:54-70 | after the patch, object 1 is the font, object 2P+2 the page tree listing the page numbers, and object 2P+3 the catalog naming it |
| PdfObjects.ObjectGraph | tools/generate_pdf.py:48-73 | every reference points where it should: font 1; for page k, stream 2k+2 and page 2k+3 naming font 1, stream 2k+2 and parent 2P+2, with no placeholder; the page tree's kids are 2k+3 in order and its count is P; the catalog, last, names the page tree |
| PdfObjects.RegisteredLatin1 | tools/generate_pdf.py:50-70 | every object `add_obj` stores is bytes, since each went through the Latin-1 encoding |
| PdfObjects.PatchedLatin1 | tools/generate_pdf.py:72-73 | replacing by bytes keeps every object bytes |
| PdfObjects.ObjectsLatin1 | tools/generate_pdf.py:50-73 | every object of the patched table is bytes |
| XrefWriter.PdfFile | tools/generate_pdf.py:75-95 | the file is the header, the framed objects, the `xref` line for len+1 entries, the free entry, one entry per object offset, the trailer with `/Size` and `/Root`, and `startxref` with the position of `xref` |
| XrefWriter.WriteObjects | tools/generate_pdf.py:75-82 | the header followed by every object framed as `i 0 obj ... endobj`, and the offsets 0 then the position of each frame |
| XrefWriter.AppendRecord | tools/generate_pdf.py:78-82 | appending object i+1's frame after the first i frames gives the first i+1 frames |
| XrefWriter.WriteXref | tools/generate_pdf.py:84-88 | the subsection line for `len(objects)+1` entries, the free entry, and one entry per recorded offset, in order |
| XrefWriter.Serialize | tools/generate_pdf.py:75-95 | the bytes written are the reference file for the objects and the catalog number |
| XrefWriter.ObjectAtOffset | tools/generate_pdf.py:77-82 | the recorded offset of object k+1 is where its frame lies in the finished file |
| XrefWriter.RecordHead | tools/generate_pdf.py:80 | every frame starts with `i 0 obj\n`, and its number reads back as `i` |
| XrefWriter.OffsetBelowXref | tools/generate_pdf.py:79-84 | every recorded offset lies before the xref table |
| XrefWriter.FileFrame | tools/generate_pdf.py:76-93 | the file starts with `%PDF-1.4\n`; at the position `startxref` announces, the file reads `xref`, the subsection line and the free entry; the file ends with that position and `%%EOF`, and the position reads back |
| XrefWriter.TrailerNamesRoot | tools/generate_pdf.py:90-95 | the trailer's `/Size` reads back as the number of xref entries (objects plus the free one) and `/Root` as the catalog number |
| XrefWriter.EntryDigits | tools/generate_pdf.py:88 | an entry is 20 bytes, and its first ten digits read back as the offset |
| XrefWriter.XrefEntryPointsToObject | tools/generate_pdf.py:84-88 | the k-th in-use entry of the table is the 20-byte entry of object k+1's offset, and its digits read back as that offset |
| XrefWriter.XrefFindsEveryObject | tools/generate_pdf.py:75-95 | a reader that follows the xref table finds every object: the entry's digits give the offset, and the object's frame lies there |
| XrefWriter.FileLatin1 | tools/generate_pdf.py:75-95 | when every object is bytes, the whole file is bytes: the frames, the xref table and the trailer are ASCII |
| PyText.Dec | tools/generate_pdf.py:80 | `f"{n}"` is a non-empty run of decimal digits that starts with `0` only for zero |
| PyText.DecRoundTrip | tools/generate_pdf.py:80 | `f"{n}"` reads back as `n` |
| PyText.Pad10 | tools/generate_pdf.py:88 | `f"{off:010d}"`: the decimal form with zeros in front up to ten digits, and the plain decimal form when it is longer |
| PyText.Pad10Digits | tools/generate_pdf.py:88 | `f"{off:010d}"` is only digits and never shorter than ten |
| PyText.Pad10RoundTrip | tools/generate_pdf.py:88 | below 10^10, `f"{off:010d}"` is exactly ten digits that read back as `off` |
| PdfWriter.MakePdf | tools/generate_pdf.py:38-95 | `make_pdf` writes the reference document for the text: the pages of the wrapped lines, their objects, the catalog as root; every character of it is below 256, so it is the bytes handed to `write_bytes` |
| PdfWriter.DocumentIsLinked | tools/generate_pdf.py:69-70 | the root handed to the trailer, 2P+3, is the number of objects; that last object is the catalog naming the object before it, which is the page tree listing the P pages |
| PdfWriter.PageCount | tools/generate_pdf.py:39-46 | the document has ceil(n / 52) pages for n wrapped lines |
| PdfWriter.PagesAreLaidOut | tools/generate_pdf.py:39-46 | the pages hold the wrapped lines in order, between 1 and 52 per page |
| PdfWriter.PagesAreDrawn | tools/generate_pdf.py:56-73 | page k's lines are drawn by the stream of object 2k+2, and page object 2k+3 references it and names the page tree as parent |

## Left out

- `main` (`tools/generate_pdf.py:100-103`) and `output.write_bytes` (line 97) are not modelled because they read and write files. `PdfWriter.MakePdf` returns the bytes instead of writing them.
- Bytes are characters below 256.
  - `encode("latin-1", errors="replace")` maps each character above 255 to `?`, as CPython does.
  - `encode("ascii")` and `.encode()` are applied only to text made of ASCII digits, spaces and keywords, so they are modelled as the identity.
  - The `bytearray` that grows by `extend` is a string value that is reassigned.
- Python strings can hold lone surrogate code points, but Dafny's `char` cannot, so such input is outside the model.
- `textwrap` is modelled only for the options the writer passes: width 92, tabs expanded to 8 columns, whitespace translated to spaces, whitespace dropped at line edges, no long-word or hyphen breaking. Indents, `max_lines`, `fix_sentence_endings` and the hyphen-splitting pattern are not part of this model, because the writer does not use them.
- XrefWriter.XrefEntryPointsToObject: stated only while the file before the xref table is under 10^10 bytes. Above that, `{off:010d}` prints more than ten digits and the entries are no longer 20 bytes. `PyText.Pad10` still computes what Python prints there.
- XrefWriter.XrefFindsEveryObject: same bound of 10^10 bytes before the xref table, for the same reason.
- XrefWriter.EntryDigits: same bound; it is stated for offsets below 10^10.
- The wrapped line breaks follow `textwrap`, not the plain reading "words separated by single spaces, no line over the maximum width".
  - `break_long_words=False` lets a single word longer than 92 characters stand alone on a line that exceeds the width. `Layout.WrapShape` states this exception.
  - Runs of whitespace inside a line are kept. A tab becomes the spaces up to the next multiple of 8 columns, and each other character of `textwrap`'s whitespace set (line feed, vertical tab, form feed, carriage return, space) becomes one space. Other Unicode whitespace, such as U+00A0, is kept as it is and does not separate words.
  - A paragraph's leading whitespace stays at the start of its first line when it fits there together with the first word; otherwise it is dropped.
