/** The serialisation at the end of `make_pdf`: the header, every object
    framed as `n 0 obj ... endobj` with its byte offset recorded, the
    cross-reference table of section 7.5.4 of ISO 32000-1:2008 (one 20-byte
    entry per object), and the trailer with `startxref`. */
module XrefWriter {
  import opened PyText

  const Header: string := "%PDF-1.4\n"

  /** `f"{i} 0 obj\n"` + the object + `"\nendobj\n"`. */
  function Record(i: nat, body: string): string {
    Dec(i) + " 0 obj\n" + body + "\nendobj\n"
  }

  /** The framed objects, numbered from 1 in table order. */
  function Records(objs: seq<string>): (rs: seq<string>)
    ensures |rs| == |objs|
  {
    seq(|objs|, k requires 0 <= k < |objs| => Record(k + 1, objs[k]))
  }

  /** Everything written after the header and before the xref table. */
  function Body(objs: seq<string>): string {
    Join("", Records(objs))
  }

  /** Where object k + 1 starts: the length of what precedes it. */
  function Offset(objs: seq<string>, k: nat): nat
    requires k <= |objs|
  {
    |Header| + |Join("", Records(objs)[..k])|
  }

  /** `offsets[1:]`. */
  function Offsets(objs: seq<string>): (offs: seq<nat>)
    ensures |offs| == |objs|
  {
    seq(|objs|, k requires 0 <= k < |objs| => Offset(objs, k))
  }

  /** `f"{off:010d} 00000 n \n"`: an in-use entry. */
  function XrefEntry(off: nat): string {
    Pad10(off) + " 00000 n \n"
  }

  function Entries(offs: seq<nat>): (es: seq<string>)
    ensures |es| == |offs|
  {
    seq(|offs|, k requires 0 <= k < |offs| => XrefEntry(offs[k]))
  }

  /** The subsection header line for objects 0..count. */
  function XrefLine(count: nat): string {
    "xref\n0 " + Dec(count + 1) + "\n"
  }

  /** The entry of object 0, the head of the free list. */
  const FreeEntry: string := "0000000000 65535 f \n"

  function TrailerDict(count: nat, root: nat): string {
    "trailer\n<< /Size " + Dec(count + 1) + " /Root " + Dec(root) + " 0 R >>\n"
  }

  function StartXref(xrefPos: nat): string {
    "startxref\n" + Dec(xrefPos) + "\n%%EOF\n"
  }

  /** The position of the `xref` keyword. */
  function XrefPos(objs: seq<string>): nat {
    |Header + Body(objs)|
  }

  /** The whole file for the given objects and catalog number. */
  function PdfFile(objs: seq<string>, root: nat): string {
    Header + Body(objs) + XrefLine(|objs|) + FreeEntry + Join("", Entries(Offsets(objs))) +
    TrailerDict(|objs|, root) + StartXref(XrefPos(objs))
  }

  // ---------------------------------------------------------------------------
  // The writer
  // ---------------------------------------------------------------------------

  /** Lines 75-95 of `make_pdf`: write the objects while recording their
      offsets, then the xref table and the trailer. */
  method Serialize(objects: seq<string>, catalogObj: nat) returns (pdf: string)
    ensures pdf == PdfFile(objects, catalogObj)
  {
    var offsets;
    pdf, offsets := WriteObjects(objects);
    var xrefPos := |pdf|;
    pdf := WriteXref(pdf, |objects|, offsets);
    Assoc(pdf, TrailerDict(|objects|, catalogObj), StartXref(xrefPos));
    pdf := pdf + (TrailerDict(|objects|, catalogObj) + StartXref(xrefPos));
  }

  /** Lines 75-82: the header, then every object framed, each offset taken
      just before its frame. */
  method WriteObjects(objects: seq<string>) returns (pdf: string, offsets: seq<nat>)
    ensures pdf == Header + Body(objects)
    ensures offsets == [0] + Offsets(objects)
  {
    pdf := "%PDF-1.4\n";
    offsets := [0];
    for i := 0 to |objects|
      invariant pdf == Header + Join("", Records(objects)[..i])
      invariant offsets == [0] + Offsets(objects)[..i]
    {
      offsets := offsets + [|pdf|];
      pdf := pdf + (Dec(i + 1) + " 0 obj\n");
      pdf := pdf + objects[i];
      pdf := pdf + "\nendobj\n";
      AppendRecord(objects, i);
      assert Offsets(objects)[..i + 1] == Offsets(objects)[..i] + [Offset(objects, i)];
    }
    assert Records(objects)[..|objects|] == Records(objects);
    assert Offsets(objects)[..|objects|] == Offsets(objects);
  }

  /** Lines 84-88: the subsection header, the free entry and one entry per
      recorded offset, appended to `pdf`. */
  method WriteXref(front: string, count: nat, offsets: seq<nat>) returns (pdf: string)
    requires offsets != []
    ensures pdf == front + XrefLine(count) + FreeEntry + Join("", Entries(offsets[1..]))
  {
    pdf := front + XrefLine(count);
    pdf := pdf + "0000000000 65535 f \n";
    ghost var entries := Entries(offsets[1..]);
    ghost var start := pdf;
    for j := 1 to |offsets|
      invariant pdf == start + Join("", entries[..j - 1])
    {
      pdf := pdf + (Pad10(offsets[j]) + " 00000 n \n");
      EntryAt(offsets, j);
      AppendEntry(start, entries, j - 1);
    }
    assert entries[..|offsets| - 1] == entries;
  }

  lemma AppendRecord(objs: seq<string>, i: nat)
    requires i < |objs|
    ensures Header + Join("", Records(objs)[..i]) + (Dec(i + 1) + " 0 obj\n") + objs[i] + "\nendobj\n"
         == Header + Join("", Records(objs)[..i + 1])
  {
    var rs := Records(objs);
    assert rs[..i + 1] == rs[..i] + [rs[i]];
    ConcatAppend(rs[..i], [rs[i]]);
    Assoc4(Header + Join("", rs[..i]), Dec(i + 1) + " 0 obj\n", objs[i], "\nendobj\n");
  }

  lemma EntryAt(offsets: seq<nat>, j: nat)
    requires 1 <= j < |offsets|
    ensures Entries(offsets[1..])[j - 1] == Pad10(offsets[j]) + " 00000 n \n"
  {
    assert offsets[1..][j - 1] == offsets[j];
  }

  lemma AppendEntry(front: string, entries: seq<string>, j: nat)
    requires j < |entries|
    ensures front + Join("", entries[..j]) + entries[j] == front + Join("", entries[..j + 1])
  {
    assert entries[..j + 1] == entries[..j] + [entries[j]];
    ConcatAppend(entries[..j], [entries[j]]);
  }

  // ---------------------------------------------------------------------------
  // Regrouping concatenations
  // ---------------------------------------------------------------------------

  lemma Assoc(a: string, b: string, c: string)
    ensures a + b + c == a + (b + c)
  {
  }

  lemma Assoc4(a: string, b: string, c: string, d: string)
    ensures a + b + c + d == a + (b + c + d)
  {
  }

  lemma SliceMiddle(a: string, b: string, c: string)
    ensures |a| + |b| <= |a + b + c|
    ensures (a + b + c)[|a|..|a| + |b|] == b
  {
  }

  lemma SliceFrom(a: string, b: string)
    ensures (a + b)[|a|..] == b
  {
  }

  lemma PrefixOf(p: string, q: string)
    ensures StartsWith(p + q, p)
  {
  }

  lemma SuffixOf(p: string, q: string)
    ensures EndsWith(p + q, q)
  {
  }

  /** The file as header, objects, then everything from the xref table on. */
  lemma FileAround(objs: seq<string>, root: nat)
    ensures PdfFile(objs, root) == Header + Body(objs) + FileAfterBody(objs, root)
    ensures PdfFile(objs, root) == Header + Join("", Records(objs)) + FileAfterBody(objs, root)
  {
    Regroup7(Header, Body(objs), XrefLine(|objs|), FreeEntry, Join("", Entries(Offsets(objs))),
      TrailerDict(|objs|, root), StartXref(XrefPos(objs)));
  }

  lemma Regroup7(a: string, b: string, c: string, d: string, e: string, f: string, g: string)
    ensures a + b + c + d + e + f + g == a + b + (c + d + e + f + g)
  {
  }

  lemma Regroup5(h: string, a: string, m: string, b: string, t: string)
    ensures h + (a + m + b) + t == (h + a) + m + (b + t)
  {
  }

  // ---------------------------------------------------------------------------
  // What a reader relies on
  // ---------------------------------------------------------------------------

  /** A concatenation, cut around its k-th part. */
  lemma ConcatSplit(parts: seq<string>, k: nat)
    requires k < |parts|
    ensures Join("", parts) == Join("", parts[..k]) + parts[k] + Join("", parts[k + 1..])
  {
    var pre, rest, post := parts[..k], parts[k..], parts[k + 1..];
    assert parts == pre + rest;
    assert rest == [parts[k]] + post;
    ConcatAppend(pre, rest);
    ConcatCons(parts[k], post);
    Assoc(Join("", pre), parts[k], Join("", post));
  }

  /** Parts of equal width `w` concatenate to `w` times their number. */
  lemma {:induction false} ConcatWidth(parts: seq<string>, w: nat)
    requires forall i | 0 <= i < |parts| :: |parts[i]| == w
    ensures |Join("", parts)| == w * |parts|
    decreases |parts|
  {
    if parts != [] {
      ConcatCons(parts[0], parts[1..]);
      assert parts == [parts[0]] + parts[1..];
      ConcatWidth(parts[1..], w);
    }
  }

  /** In `s`, made of `h`, the parts, then `tail`, part k lies at `off`,
      after `h` and the parts before it. */
  lemma PartAt(s: string, h: string, parts: seq<string>, tail: string, k: nat, off: nat)
    requires k < |parts|
    requires s == h + Join("", parts) + tail
    requires off == |h| + |Join("", parts[..k])|
    ensures off + |parts[k]| <= |s| && s[off..off + |parts[k]|] == parts[k]
  {
    ConcatSplit(parts, k);
    Regroup5(h, Join("", parts[..k]), parts[k], Join("", parts[k + 1..]), tail);
    SliceMiddle(h + Join("", parts[..k]), parts[k], Join("", parts[k + 1..]) + tail);
  }

  /** The byte offset recorded for object k + 1 is where its framed
      object, `k+1 0 obj` line first, lies in the file. */
  lemma ObjectAtOffset(objs: seq<string>, root: nat, k: nat)
    requires k < |objs|
    ensures var pdf := PdfFile(objs, root);
      var off := Offsets(objs)[k];
      var rec := Record(k + 1, objs[k]);
      off + |rec| <= |pdf| && pdf[off..off + |rec|] == rec
  {
    var rs := Records(objs);
    FileAround(objs, root);
    OffsetIsPrefix(objs, k);
    PartAt(PdfFile(objs, root), Header, rs, FileAfterBody(objs, root), k, Offsets(objs)[k]);
    assert rs[k] == Record(k + 1, objs[k]);
  }

  /** A framed object starts with its number, which reads back, and the
      `0 obj` keyword. */
  lemma RecordHead(i: nat, body: string)
    ensures StartsWith(Record(i, body), Dec(i) + " 0 obj\n")
    ensures IsDecimalOf(Dec(i), i)
  {
    PrefixOf(Dec(i) + " 0 obj\n", body);
    PrefixOf(Dec(i) + " 0 obj\n" + body, "\nendobj\n");
    DecRoundTrip(i);
  }

  /** Everything from the xref table on. */
  function FileAfterBody(objs: seq<string>, root: nat): string {
    XrefLine(|objs|) + FreeEntry + Join("", Entries(Offsets(objs))) +
      TrailerDict(|objs|, root) + StartXref(XrefPos(objs))
  }

  lemma OffsetIsPrefix(objs: seq<string>, k: nat)
    requires k < |objs|
    ensures Offsets(objs)[k] == |Header| + |Join("", Records(objs)[..k])|
  {
  }

  /** Every offset lies before the xref table. */
  lemma OffsetBelowXref(objs: seq<string>, k: nat)
    requires k < |objs|
    ensures Offsets(objs)[k] < XrefPos(objs)
  {
    var rs := Records(objs);
    ConcatSplit(rs, k);
    assert |rs[k]| > 0;
  }

  /** Where the k-th in-use entry of the xref table begins. */
  function EntryPos(objs: seq<string>, k: nat): nat {
    XrefPos(objs) + |XrefLine(|objs|)| + |FreeEntry| + 20 * k
  }

  /** The file starts with the header, the xref table starts at the position
      that `startxref` announces, and the file ends with that position and
      `%%EOF`. */
  lemma FileFrame(objs: seq<string>, root: nat)
    ensures var pdf := PdfFile(objs, root);
      StartsWith(pdf, Header) &&
      StartsWith(pdf[XrefPos(objs)..], "xref\n0 " + Dec(|objs| + 1) + "\n" + FreeEntry) &&
      EndsWith(pdf, "startxref\n" + Dec(XrefPos(objs)) + "\n%%EOF\n") &&
      ParseDec(Dec(XrefPos(objs))) == XrefPos(objs)
  {
    var pdf := PdfFile(objs, root);
    var tail := XrefLine(|objs|) + FreeEntry + Join("", Entries(Offsets(objs))) +
      TrailerDict(|objs|, root) + StartXref(XrefPos(objs));
    FileAround(objs, root);
    SliceFrom(Header + Body(objs), tail);
    Regroup7(XrefLine(|objs|), FreeEntry, Join("", Entries(Offsets(objs))), TrailerDict(|objs|, root),
      StartXref(XrefPos(objs)), "", "");
    Assoc4(XrefLine(|objs|) + FreeEntry, Join("", Entries(Offsets(objs))), TrailerDict(|objs|, root),
      StartXref(XrefPos(objs)));
    PrefixOf(XrefLine(|objs|) + FreeEntry,
      Join("", Entries(Offsets(objs))) + TrailerDict(|objs|, root) + StartXref(XrefPos(objs)));
    Assoc(Header, Body(objs), tail);
    PrefixOf(Header, Body(objs) + tail);
    SuffixOf(Header + Body(objs) + XrefLine(|objs|) + FreeEntry + Join("", Entries(Offsets(objs))) +
      TrailerDict(|objs|, root), StartXref(XrefPos(objs)));
    DecRoundTrip(XrefPos(objs));
  }

  /** The trailer counts the free entry plus one entry per object and names
      the catalog as the root. */
  lemma TrailerNamesRoot(objs: seq<string>, root: nat)
    ensures var pdf := PdfFile(objs, root);
      EndsWith(pdf, TrailerDict(|objs|, root) + StartXref(XrefPos(objs))) &&
      ParseDec(Dec(|objs| + 1)) == |Entries(Offsets(objs))| + 1 &&
      ParseDec(Dec(root)) == root
  {
    var front := Header + Body(objs) + XrefLine(|objs|) + FreeEntry + Join("", Entries(Offsets(objs)));
    Assoc(front, TrailerDict(|objs|, root), StartXref(XrefPos(objs)));
    SuffixOf(front, TrailerDict(|objs|, root) + StartXref(XrefPos(objs)));
    DecRoundTrip(|objs| + 1);
    DecRoundTrip(root);
  }

  /** Everything before the in-use entries of the xref table. */
  function BeforeEntries(objs: seq<string>): string {
    Header + Body(objs) + XrefLine(|objs|) + FreeEntry
  }

  lemma FileAroundEntries(objs: seq<string>, root: nat)
    ensures PdfFile(objs, root) ==
      BeforeEntries(objs) + Join("", Entries(Offsets(objs))) + (TrailerDict(|objs|, root) + StartXref(XrefPos(objs)))
  {
    Assoc(BeforeEntries(objs) + Join("", Entries(Offsets(objs))), TrailerDict(|objs|, root), StartXref(XrefPos(objs)));
  }

  /** The entries before the k-th take 20 bytes each. */
  lemma EntriesBefore(objs: seq<string>, k: nat)
    requires k <= |objs|
    requires XrefPos(objs) < TenDigitLimit
    ensures |Join("", Entries(Offsets(objs))[..k])| == 20 * k
  {
    var es := Entries(Offsets(objs));
    EntryWidths(objs);
    forall i | 0 <= i < |es[..k]|
      ensures |es[..k][i]| == 20
    {
      assert es[..k][i] == es[i];
    }
    ConcatWidth(es[..k], 20);
  }

  /** While the file before the xref table stays below 10^10 bytes, the
      k-th in-use entry of the table is the 20-byte entry for the offset
      of object k + 1, and its ten digits read back as that offset. */
  lemma XrefEntryPointsToObject(objs: seq<string>, root: nat, k: nat)
    requires k < |objs|
    requires XrefPos(objs) < TenDigitLimit
    ensures var pdf := PdfFile(objs, root);
      var e := EntryPos(objs, k);
      var off := Offsets(objs)[k];
      e + 20 <= |pdf| && pdf[e..e + 20] == XrefEntry(off) &&
      IsDecimalOf(XrefEntry(off)[..10], off)
  {
    FileAroundEntries(objs, root);
    EntryIn(PdfFile(objs, root), objs, TrailerDict(|objs|, root) + StartXref(XrefPos(objs)), k);
  }

  /** Any text made of what precedes the table, the entries and a tail holds
      the k-th entry at its position. */
  lemma EntryIn(s: string, objs: seq<string>, tail: string, k: nat)
    requires k < |objs|
    requires XrefPos(objs) < TenDigitLimit
    requires s == BeforeEntries(objs) + Join("", Entries(Offsets(objs))) + tail
    ensures var e := EntryPos(objs, k);
      var off := Offsets(objs)[k];
      e + 20 <= |s| && s[e..e + 20] == XrefEntry(off) &&
      IsDecimalOf(XrefEntry(off)[..10], off)
  {
    var es := Entries(Offsets(objs));
    var off := Offsets(objs)[k];
    EntryStart(objs, k);
    OffsetBelowXref(objs, k);
    EntryDigits(off);
    PartAt(s, BeforeEntries(objs), es, tail, k, EntryPos(objs, k));
    assert es[k] == XrefEntry(off);
  }

  /** The k-th entry starts after what precedes the table and the k entries
      before it. */
  lemma EntryStart(objs: seq<string>, k: nat)
    requires k < |objs|
    requires XrefPos(objs) < TenDigitLimit
    ensures EntryPos(objs, k) == |BeforeEntries(objs)| + |Join("", Entries(Offsets(objs))[..k])|
  {
    EntriesBefore(objs, k);
  }

  /** An entry for an offset below 10^10 is 20 bytes long and starts with
      ten digits that read back as that offset. */
  lemma EntryDigits(off: nat)
    requires off < TenDigitLimit
    ensures |XrefEntry(off)| == 20 && IsDecimalOf(XrefEntry(off)[..10], off)
  {
    Pad10RoundTrip(off);
    assert XrefEntry(off)[..10] == Pad10(off);
  }

  lemma EntryWidths(objs: seq<string>)
    requires XrefPos(objs) < TenDigitLimit
    ensures forall i | 0 <= i < |objs| :: |Entries(Offsets(objs))[i]| == 20
  {
    forall i | 0 <= i < |objs|
      ensures |Entries(Offsets(objs))[i]| == 20
    {
      OffsetBelowXref(objs, i);
      Pad10RoundTrip(Offsets(objs)[i]);
    }
  }

  /** What a reader finds for object k + 1 by following the xref table of
      `pdf`: entry k is the entry of the recorded offset, whose ten digits
      read back as it, and the framed object lies at that offset. */
  predicate Locates(pdf: string, objs: seq<string>, k: nat)
    requires k < |objs|
  {
    var e := EntryPos(objs, k);
    var off := Offsets(objs)[k];
    var rec := Record(k + 1, objs[k]);
    e + 20 <= |pdf| && pdf[e..e + 20] == XrefEntry(off) && IsDecimalOf(XrefEntry(off)[..10], off) &&
    off + |rec| <= |pdf| && pdf[off..off + |rec|] == rec
  }

  /** A reader that follows the xref table finds every object, while the
      file before the table stays below 10^10 bytes. */
  lemma XrefFindsEveryObject(objs: seq<string>, root: nat)
    requires XrefPos(objs) < TenDigitLimit
    ensures forall k | 0 <= k < |objs| :: Locates(PdfFile(objs, root), objs, k)
  {
    forall k | 0 <= k < |objs|
      ensures Locates(PdfFile(objs, root), objs, k)
    {
      XrefEntryPointsToObject(objs, root, k);
      ObjectAtOffset(objs, root, k);
    }
  }

  // ---------------------------------------------------------------------------
  // The file is bytes
  // ---------------------------------------------------------------------------

  lemma RecordLatin1(i: nat, body: string)
    requires IsLatin1(body)
    ensures IsLatin1(Record(i, body))
  {
    DigitsLatin1(Dec(i));
    Latin1Append(Dec(i), " 0 obj\n");
    Latin1Append(Dec(i) + " 0 obj\n", body);
    Latin1Append(Dec(i) + " 0 obj\n" + body, "\nendobj\n");
  }

  /** Framing byte objects gives bytes. */
  lemma BodyLatin1(objs: seq<string>)
    requires AllLatin1(objs)
    ensures IsLatin1(Body(objs))
  {
    forall k | 0 <= k < |objs|
      ensures IsLatin1(Records(objs)[k])
    {
      RecordLatin1(k + 1, objs[k]);
    }
    JoinLatin1("", Records(objs));
  }

  /** The entries are digits, spaces, letters and newlines. */
  lemma EntriesLatin1(offs: seq<nat>)
    ensures IsLatin1(Join("", Entries(offs)))
  {
    forall k | 0 <= k < |offs|
      ensures IsLatin1(Entries(offs)[k])
    {
      Pad10Digits(offs[k]);
      DigitsLatin1(Pad10(offs[k]));
      Latin1Append(Pad10(offs[k]), " 00000 n \n");
    }
    JoinLatin1("", Entries(offs));
  }

  lemma TailLatin1(count: nat, root: nat, xrefPos: nat)
    ensures IsLatin1(TrailerDict(count, root)) && IsLatin1(StartXref(xrefPos))
  {
    DigitsLatin1(Dec(count + 1));
    DigitsLatin1(Dec(root));
    DigitsLatin1(Dec(xrefPos));
    Latin1Append("trailer\n<< /Size ", Dec(count + 1));
    Latin1Append("trailer\n<< /Size " + Dec(count + 1), " /Root ");
    Latin1Append("trailer\n<< /Size " + Dec(count + 1) + " /Root ", Dec(root));
    Latin1Append("trailer\n<< /Size " + Dec(count + 1) + " /Root " + Dec(root), " 0 R >>\n");
    Latin1Append("startxref\n", Dec(xrefPos));
    Latin1Append("startxref\n" + Dec(xrefPos), "\n%%EOF\n");
  }

  lemma XrefLineLatin1(count: nat)
    ensures IsLatin1(XrefLine(count)) && IsLatin1(FreeEntry)
  {
    DigitsLatin1(Dec(count + 1));
    Latin1Append("xref\n0 ", Dec(count + 1));
    Latin1Append("xref\n0 " + Dec(count + 1), "\n");
  }

  /** With every object a byte string, the whole file is one. */
  lemma FileLatin1(objs: seq<string>, root: nat)
    requires AllLatin1(objs)
    ensures IsLatin1(PdfFile(objs, root))
  {
    var count := |objs|;
    var entries := Join("", Entries(Offsets(objs)));
    BodyLatin1(objs);
    XrefLineLatin1(count);
    EntriesLatin1(Offsets(objs));
    TailLatin1(count, root, XrefPos(objs));
    var file := Header + Body(objs);
    Latin1Append(Header, Body(objs));
    Latin1Append(file, XrefLine(count));
    file := file + XrefLine(count);
    Latin1Append(file, FreeEntry);
    file := file + FreeEntry;
    Latin1Append(file, entries);
    file := file + entries;
    Latin1Append(file, TrailerDict(count, root));
    file := file + TrailerDict(count, root);
    Latin1Append(file, StartXref(XrefPos(objs)));
  }
}
