/** `split_pages`: the flat list of lines is cut into consecutive pages of
    `(TOP - 60) // LINE_H` lines each; the last page may be shorter. */
module Pagination {
  import opened Config
  import opened Layout

  /** `lines_per_page`: 730 // 14, that is 52. */
  const LinesPerPage: nat := (Top - 60) / LineHeight

  /** Reference definition of the pages, first page first. */
  function Paginate(lines: seq<string>): seq<seq<string>>
    decreases |lines|
  {
    if lines == [] then []
    else if |lines| <= LinesPerPage then [lines]
    else [lines[..LinesPerPage]] + Paginate(lines[LinesPerPage..])
  }

  /** The `range(0, len(lines), lines_per_page)` loop of `split_pages`. */
  method SplitPages(lines: seq<string>) returns (pages: seq<seq<string>>)
    ensures pages == Paginate(lines)
  {
    pages := [];
    var i := 0;
    while i < |lines|
      invariant i <= |lines|
      invariant pages + Paginate(lines[i..]) == Paginate(lines)
      decreases |lines| - i
    {
      // Python's slice lines[i:i + lines_per_page] stops at the end of the
      // list; once it does, the next start is past the end and the loop stops
      var j := if i + LinesPerPage <= |lines| then i + LinesPerPage else |lines|;
      PageAt(lines, i, j);
      pages := pages + [lines[i..j]];
      i := j;
    }
  }

  /** The page starting at line i is the slice up to j, the next page's start. */
  lemma PageAt(lines: seq<string>, i: nat, j: nat)
    requires i < |lines|
    requires j == if i + LinesPerPage <= |lines| then i + LinesPerPage else |lines|
    ensures Paginate(lines[i..]) == [lines[i..j]] + Paginate(lines[j..])
  {
    var rest := lines[i..];
    if |rest| > LinesPerPage {
      assert rest[..LinesPerPage] == lines[i..j];
      assert rest[LinesPerPage..] == lines[j..];
    } else {
      assert rest == lines[i..j];
      assert lines[j..] == [];
    }
  }

  /** The pages put back together are the lines, in order; every page holds
      between 1 and 52 lines, every page but the last exactly 52; and there
      are ceil(len / 52) pages, so no lines give no pages. */
  lemma {:induction false} PaginateShape(lines: seq<string>)
    ensures LinesPerPage == 52
    ensures Flatten(Paginate(lines)) == lines
    ensures forall k | 0 <= k < |Paginate(lines)| :: 0 < |Paginate(lines)[k]| <= LinesPerPage
    ensures forall k | 0 <= k < |Paginate(lines)| - 1 :: |Paginate(lines)[k]| == LinesPerPage
    ensures |Paginate(lines)| == (|lines| + LinesPerPage - 1) / LinesPerPage
    decreases |lines|
  {
    if |lines| > LinesPerPage {
      var rest := lines[LinesPerPage..];
      PaginateShape(rest);
      assert lines == lines[..LinesPerPage] + rest;
    }
  }
}
