/** Line production in `make_pdf`: the text is split into paragraphs with
    `str.splitlines()`, a blank paragraph becomes one empty line, and every
    other paragraph is wrapped with
    `textwrap.wrap(p, width=92, break_long_words=False, break_on_hyphens=False)`. */
module Layout {
  import opened PyText
  import opened Config

  // ---------------------------------------------------------------------------
  // str.splitlines()
  // ---------------------------------------------------------------------------

  /** The line boundaries of `str.splitlines()`. */
  predicate IsLineBreak(c: char) {
    var n := c as int;
    (10 <= n <= 13) || (0x1C <= n <= 0x1E) || n == 0x85 || n == 0x2028 || n == 0x2029
  }

  /** Index of the first line boundary in `s`, or `|s|` when there is none. */
  function BreakAt(s: string): (i: nat)
    ensures i <= |s|
    ensures forall j | 0 <= j < i :: !IsLineBreak(s[j])
    ensures i < |s| ==> IsLineBreak(s[i])
    decreases |s|
  {
    if s == [] || IsLineBreak(s[0]) then 0 else 1 + BreakAt(s[1..])
  }

  /** `s.splitlines()`: "\r\n" is one boundary, and a boundary at the very end
      does not start another (empty) paragraph. */
  function SplitLines(s: string): seq<string>
    decreases |s|
  {
    if s == [] then []
    else
      var i := BreakAt(s);
      if i == |s| then [s]
      else
        [s[..i]] + SplitLines(s[AfterBreak(s, i)..])
  }

  /** Where the next paragraph starts after the boundary at `i`. */
  function AfterBreak(s: string, i: nat): (next: nat)
    requires i < |s|
    ensures i < next <= |s|
  {
    if s[i] == '\r' && i + 1 < |s| && s[i + 1] == '\n' then i + 2 else i + 1
  }

  predicate HasNoBreak(p: string) {
    forall j | 0 <= j < |p| :: !IsLineBreak(p[j])
  }

  /** No paragraph handed to the wrapper holds a line boundary. */
  lemma {:induction false} ParagraphsHaveNoBreaks(s: string)
    ensures forall p | p in SplitLines(s) :: HasNoBreak(p)
    decreases |s|
  {
    if s != [] {
      var i := BreakAt(s);
      var head := s[..i];
      assert HasNoBreak(head) by {
        assert forall j | 0 <= j < |head| :: head[j] == s[j];
      }
      if i < |s| {
        ParagraphsHaveNoBreaks(s[AfterBreak(s, i)..]);
      } else {
        assert head == s;
        assert SplitLines(s) == [s];
      }
    }
  }

  // ---------------------------------------------------------------------------
  // textwrap: whitespace munging and chunking
  // ---------------------------------------------------------------------------

  function Spaces(k: nat): (r: string)
    ensures |r| == k && forall i | 0 <= i < k :: r[i] == ' '
  {
    seq(k, _ => ' ')
  }

  /** `str.expandtabs(8)` continued from column `col`. */
  function ExpandTabs(s: string, col: nat): string
    decreases |s|
  {
    if s == [] then []
    else if s[0] == '\t' then
      var pad := 8 - col % 8;
      Spaces(pad) + ExpandTabs(s[1..], col + pad)
    else if s[0] == '\n' || s[0] == '\r' then [s[0]] + ExpandTabs(s[1..], 0)
    else [s[0]] + ExpandTabs(s[1..], col + 1)
  }

  /** textwrap's own whitespace set, `'\t\n\x0b\x0c\r '`. */
  predicate IsWrapSpace(c: char) {
    c == '\t' || c == '\n' || c == '\U{B}' || c == '\U{C}' || c == '\r' || c == ' '
  }

  /** `_munge_whitespace`: expand tabs, then turn each textwrap whitespace
      character into one space. */
  function Munge(p: string): (m: string)
  {
    var e := ExpandTabs(p, 0);
    seq(|e|, i requires 0 <= i < |e| => if IsWrapSpace(e[i]) then ' ' else e[i])
  }

  lemma {:induction false} ExpandKeeps(s: string, col: nat, j: nat)
    requires j < |s| && s[j] != '\t'
    ensures s[j] in ExpandTabs(s, col)
    decreases |s|
  {
    if j > 0 {
      var col' := if s[0] == '\t' then col + (8 - col % 8)
                  else if s[0] == '\n' || s[0] == '\r' then 0 else col + 1;
      ExpandKeeps(s[1..], col', j - 1);
    }
  }

  /** A character that is not whitespace survives munging. */
  lemma MungeKeeps(p: string, j: nat)
    requires j < |p| && !IsPySpace(p[j])
    ensures p[j] in Munge(p)
  {
    ExpandKeeps(p, 0, j);
    var e := ExpandTabs(p, 0);
    var k :| 0 <= k < |e| && e[k] == p[j];
    assert Munge(p)[k] == p[j];
  }

  /** A chunk that is a run of spaces. */
  predicate IsSpaceRun(c: string) {
    forall i | 0 <= i < |c| :: c[i] == ' '
  }

  /** The length of the leading run of `s` that is all spaces (`space`) or
      holds no space (`!space`). */
  function RunLength(s: string, space: bool): (n: nat)
    ensures n <= |s|
    ensures forall i | 0 <= i < n :: (s[i] == ' ') == space
    ensures n < |s| ==> (s[n] == ' ') != space
    decreases |s|
  {
    if s == [] || (s[0] == ' ') != space then 0 else 1 + RunLength(s[1..], space)
  }

  /** `wordsep_simple_re.split` with empty pieces dropped: maximal runs of
      spaces and of non-spaces, in order. */
  function Chunks(s: string): (cs: seq<string>)
    ensures Join("", cs) == s
    ensures forall c | c in cs :: c != "" && (IsSpaceRun(c) || ' ' !in c)
    ensures cs != [] ==> s != [] && IsSpaceRun(cs[0]) == (s[0] == ' ')
    ensures forall i | 0 <= i < |cs| - 1 :: IsSpaceRun(cs[i]) != IsSpaceRun(cs[i + 1])
    decreases |s|
  {
    if s == [] then []
    else
      var n := RunLength(s, s[0] == ' ');
      FirstRun(s, n);
      var rest := Chunks(s[n..]);
      ConcatCons(s[..n], rest);
      NextRunDiffers(s, n, rest);
      [s[..n]] + rest
  }

  /** The run after the leading one is of the other kind. */
  lemma NextRunDiffers(s: string, n: nat, rest: seq<string>)
    requires s != [] && n == RunLength(s, s[0] == ' ')
    requires rest != [] ==> n < |s| && IsSpaceRun(rest[0]) == (s[n] == ' ')
    ensures 0 < n <= |s| && IsSpaceRun(s[..n]) == (s[0] == ' ')
    ensures rest != [] ==> IsSpaceRun(s[..n]) != IsSpaceRun(rest[0])
  {
    FirstRun(s, n);
    if s[0] != ' ' {
      assert s[..n][0] == s[0];
    }
  }

  /** The leading run is a chunk: not empty, and all spaces or space-free. */
  lemma FirstRun(s: string, n: nat)
    requires s != [] && n == RunLength(s, s[0] == ' ')
    ensures 0 < n <= |s| && s[..n] + s[n..] == s
    ensures s[..n] != "" && (IsSpaceRun(s[..n]) || ' ' !in s[..n])
  {
    var run := s[..n];
    assert forall i | 0 <= i < n :: run[i] == s[i];
    if s[0] != ' ' {
      assert ' ' !in run;
    }
  }

  /** Chunks that hold a visible character: the words of the paragraph. */
  function Solid(cs: seq<string>): seq<string>
    decreases |cs|
  {
    if cs == [] then [] else (if IsBlank(cs[0]) then [] else [cs[0]]) + Solid(cs[1..])
  }

  lemma {:induction false} SolidAppend(a: seq<string>, b: seq<string>)
    ensures Solid(a + b) == Solid(a) + Solid(b)
    decreases |a|
  {
    if a == [] {
      assert a + b == b;
    } else {
      var head := if IsBlank(a[0]) then [] else [a[0]];
      assert (a + b)[0] == a[0];
      assert (a + b)[1..] == a[1..] + b;
      assert Solid(a + b) == head + Solid(a[1..] + b);
      SolidAppend(a[1..], b);
      assert Solid(a) == head + Solid(a[1..]);
    }
  }

  lemma SolidOne(c: string)
    ensures Solid([c]) == (if IsBlank(c) then [] else [c])
  {
    assert [c][1..] == [];
  }

  function Flatten(gs: seq<seq<string>>): seq<string>
    decreases |gs|
  {
    if gs == [] then [] else gs[0] + Flatten(gs[1..])
  }

  // ---------------------------------------------------------------------------
  // textwrap: greedy line filling
  // ---------------------------------------------------------------------------

  /** How many leading chunks fit in `room` columns, taken greedily. */
  function Fit(cs: seq<string>, room: int): (n: nat)
    ensures n <= |cs|
    ensures room >= 0 ==> |Join("", cs[..n])| <= room
    ensures n < |cs| ==> |Join("", cs[..n + 1])| > room
    decreases |cs|
  {
    if cs == [] || |cs[0]| > room then
      assert cs != [] ==> cs[..1] == [cs[0]];
      0
    else
      var k := Fit(cs[1..], room - |cs[0]|);
      assert cs[..k + 1] == [cs[0]] + cs[1..][..k];
      ConcatCons(cs[0], cs[1..][..k]);
      var k2 := if k < |cs| - 1 then k + 1 else k;
      assert cs[..k2 + 1] == [cs[0]] + cs[1..][..k2];
      ConcatCons(cs[0], cs[1..][..k2]);
      1 + k
  }

  /** One line of `_wrap_chunks`: the chunks the line is made of and the
      chunks left for the following lines. */
  datatype Step = Step(line: seq<string>, rest: seq<string>)

  /** One pass of the outer loop of `_wrap_chunks`. `started` says whether a
      line has been emitted yet: only then is a blank chunk at the start of a
      line dropped. */
  function NextLine(chunks: seq<string>, started: bool): (st: Step)
    requires chunks != []
    ensures |st.rest| < |chunks|
  {
    var cs := if started && IsBlank(chunks[0]) then chunks[1..] else chunks;
    var n := Fit(cs, MaxChars);
    // break_long_words=False: an over-long chunk is taken whole, but only
    // onto an empty line
    var take := if n < |cs| && |cs[n]| > MaxChars && n == 0 then 1 else n;
    assert cs != [] && n == 0 ==> cs[..1] == [cs[0]];
    Cut(cs, take)
  }

  /** The line made of the first `take` chunks, and the chunks after them. */
  function Cut(cs: seq<string>, take: nat): (st: Step)
    requires take <= |cs|
    ensures |st.rest| == |cs| - take
  {
    // drop_whitespace: a blank last chunk is not part of the line
    var line := if take > 0 && IsBlank(cs[take - 1]) then cs[..take - 1] else cs[..take];
    Step(line, cs[take..])
  }

  /** `_wrap_chunks` for one paragraph: the chunk list of every output line. */
  function WrapChunks(chunks: seq<string>, started: bool): seq<seq<string>>
    decreases |chunks|
  {
    if chunks == [] then []
    else
      var st := NextLine(chunks, started);
      if st.line != [] then [st.line] + WrapChunks(st.rest, true)
      else WrapChunks(st.rest, started)
  }

  /** The chunk lists of the lines `textwrap.wrap` returns for `p`. */
  function WrapGroups(p: string): seq<seq<string>> {
    WrapChunks(Chunks(Munge(p)), false)
  }

  /** `textwrap.wrap(p, width=92, break_long_words=False, break_on_hyphens=False)`. */
  function Wrap(p: string): (lines: seq<string>)
    ensures |lines| == |WrapGroups(p)|
  {
    var gs := WrapGroups(p);
    seq(|gs|, i requires 0 <= i < |gs| => Join("", gs[i]))
  }

  /** A line fits in 92 columns unless it is one visible chunk on its own. */
  lemma NextLineWidth(chunks: seq<string>, started: bool)
    requires chunks != []
    ensures var st := NextLine(chunks, started);
      |Join("", st.line)| <= MaxChars || (|st.line| == 1 && !IsBlank(st.line[0]))
  {
    var cs := if started && IsBlank(chunks[0]) then chunks[1..] else chunks;
    var n := Fit(cs, MaxChars);
    var take := if n < |cs| && |cs[n]| > MaxChars && n == 0 then 1 else n;
    var st := NextLine(chunks, started);
    if take == n && st.line != cs[..take] {
      assert cs[..take] == st.line + [cs[take - 1]];
      ConcatAppend(st.line, [cs[take - 1]]);
    }
  }

  /** A line and what is left after it are made of the input's chunks. */
  lemma NextLineFrom(chunks: seq<string>, started: bool)
    requires chunks != []
    ensures var st := NextLine(chunks, started);
      (forall c | c in st.line :: c in chunks) && (forall c | c in st.rest :: c in chunks)
  {
    var cs := if started && IsBlank(chunks[0]) then chunks[1..] else chunks;
    assert forall c | c in cs :: c in chunks;
  }

  lemma SolidSplit(cs: seq<string>, k: nat)
    requires k <= |cs|
    ensures Solid(cs) == Solid(cs[..k]) + Solid(cs[k..])
  {
    assert cs == cs[..k] + cs[k..];
    SolidAppend(cs[..k], cs[k..]);
  }

  /** A blank chunk at position k - 1 adds no word to the first k chunks. */
  lemma SolidBlankLast(cs: seq<string>, k: nat)
    requires 0 < k <= |cs| && IsBlank(cs[k - 1])
    ensures Solid(cs[..k]) == Solid(cs[..k - 1])
  {
    var init, last := cs[..k - 1], cs[k - 1];
    assert cs[..k] == init + [last];
    SolidAppend(init, [last]);
    SolidOne(last);
    assert Solid(init) + [] == Solid(init);
  }

  lemma SolidBlankFirst(cs: seq<string>)
    requires cs != [] && IsBlank(cs[0])
    ensures Solid(cs) == Solid(cs[1..])
  {
  }

  /** Cutting the chunks after `take`, less a blank last chunk, keeps every
      word on one side of the cut. */
  lemma LineWords(cs: seq<string>, take: nat)
    requires take <= |cs|
    ensures Solid(cs) == Solid(Cut(cs, take).line) + Solid(Cut(cs, take).rest)
  {
    SolidSplit(cs, take);
    if take > 0 && IsBlank(cs[take - 1]) {
      SolidBlankLast(cs, take);
    }
  }

  /** The chunks a line drops are blank: the words are the line's and the rest's. */
  lemma NextLineWords(chunks: seq<string>, started: bool)
    requires chunks != []
    ensures var st := NextLine(chunks, started);
      Solid(chunks) == Solid(st.line) + Solid(st.rest)
  {
    var cs := if started && IsBlank(chunks[0]) then chunks[1..] else chunks;
    var n := Fit(cs, MaxChars);
    var take := if n < |cs| && |cs[n]| > MaxChars && n == 0 then 1 else n;
    if cs != chunks {
      SolidBlankFirst(chunks);
    }
    LineWords(cs, take);
  }

  /** What the greedy filler guarantees for every line it emits: it is not
      empty, it fits in 92 columns unless it is one visible chunk on its own,
      it is built from the input's chunks, and no word is lost, split or
      reordered. */
  lemma {:induction false} WrapChunksShape(chunks: seq<string>, started: bool)
    ensures forall g | g in WrapChunks(chunks, started) ::
      g != [] && (|Join("", g)| <= MaxChars || (|g| == 1 && !IsBlank(g[0])))
    ensures forall g, c | g in WrapChunks(chunks, started) && c in g :: c in chunks
    ensures Solid(Flatten(WrapChunks(chunks, started))) == Solid(chunks)
    decreases |chunks|
  {
    if chunks != [] {
      var st := NextLine(chunks, started);
      NextLineWidth(chunks, started);
      NextLineFrom(chunks, started);
      NextLineWords(chunks, started);
      WrapChunksShape(st.rest, true);
      WrapChunksShape(st.rest, started);
      if st.line != [] {
        var tail := WrapChunks(st.rest, true);
        assert Flatten([st.line] + tail) == st.line + Flatten(tail);
        SolidAppend(st.line, Flatten(tail));
      }
    }
  }

  // ---------------------------------------------------------------------------
  // Paragraphs to lines
  // ---------------------------------------------------------------------------

  /** The lines one paragraph contributes: a blank paragraph keeps the spacing
      as one empty line, any other is wrapped. */
  function ParagraphLines(p: string): seq<string> {
    if IsBlank(p) then [""] else Wrap(p)
  }

  /** The lines of a list of paragraphs, in order. */
  function LinesOf(ps: seq<string>): seq<string>
    decreases |ps|
  {
    if ps == [] then [] else LinesOf(ps[..|ps| - 1]) + ParagraphLines(ps[|ps| - 1])
  }

  /** `raw_lines` as `make_pdf` builds it from the whole text. */
  function RawLines(text: string): seq<string> {
    LinesOf(SplitLines(text))
  }

  /** The loop at the head of `make_pdf` that fills `raw_lines`. */
  method BuildLines(text: string) returns (rawLines: seq<string>)
    ensures rawLines == RawLines(text)
  {
    var paragraphs := SplitLines(text);
    rawLines := [];
    var i := 0;
    while i < |paragraphs|
      invariant 0 <= i <= |paragraphs|
      invariant rawLines == LinesOf(paragraphs[..i])
    {
      var paragraph := paragraphs[i];
      assert paragraphs[..i + 1][..i] == paragraphs[..i];
      if IsBlank(paragraph) {
        rawLines := rawLines + [""];
      } else {
        rawLines := rawLines + Wrap(paragraph);
      }
      i := i + 1;
    }
    assert paragraphs[..i] == paragraphs;
  }

  lemma {:induction false} InSomeChunk(c: char, cs: seq<string>)
    requires c in Join("", cs)
    ensures exists ch | ch in cs :: c in ch
    decreases |cs|
  {
    if cs != [] {
      ConcatCons(cs[0], cs[1..]);
      assert cs == [cs[0]] + cs[1..];
      if c !in cs[0] {
        InSomeChunk(c, cs[1..]);
      }
    }
  }

  lemma {:induction false} SolidHasVisible(cs: seq<string>, ch: string)
    requires ch in cs && !IsBlank(ch)
    ensures Solid(cs) != []
    decreases |cs|
  {
    if cs[0] != ch {
      SolidHasVisible(cs[1..], ch);
    }
  }

  /** A paragraph that is not blank has a word, so it gives at least one line. */
  lemma WrapNonEmpty(p: string)
    requires !IsBlank(p)
    ensures Wrap(p) != []
  {
    var cs := Chunks(Munge(p));
    WrapChunksShape(cs, false);
    var j :| 0 <= j < |p| && !IsPySpace(p[j]);
    MungeKeeps(p, j);
    InSomeChunk(p[j], cs);
    var ch :| ch in cs && p[j] in ch;
    SolidHasVisible(cs, ch);
  }

  /** A line made of chunks of a paragraph, as the filler emits it. */
  lemma GroupLine(g: seq<string>, cs: seq<string>)
    requires forall c | c in cs :: c != "" && (IsSpaceRun(c) || ' ' !in c)
    requires g != [] && (|Join("", g)| <= MaxChars || (|g| == 1 && !IsBlank(g[0])))
    requires forall c | c in g :: c in cs
    ensures Join("", g) != "" && (|Join("", g)| <= MaxChars || ' ' !in Join("", g))
  {
    ConcatCons(g[0], g[1..]);
    assert g == [g[0]] + g[1..];
    assert g[0] in g;
    if |Join("", g)| > MaxChars {
      assert g == [g[0]];
    }
  }

  /** Every wrapped line is not empty, and is at most 92 characters unless it
      is a single word (no space in it) that is longer. */
  lemma WrapLines(p: string)
    ensures forall l | l in Wrap(p) :: l != "" && (|l| <= MaxChars || ' ' !in l)
  {
    var cs := Chunks(Munge(p));
    var gs := WrapGroups(p);
    WrapChunksShape(cs, false);
    forall i | 0 <= i < |gs|
      ensures Wrap(p)[i] != "" && (|Wrap(p)[i]| <= MaxChars || ' ' !in Wrap(p)[i])
    {
      assert gs[i] in gs;
      GroupLine(gs[i], cs);
    }
  }

  /** Wrapping a paragraph that is not blank: at least one line, none of them
      empty, each at most 92 characters unless it is a single word that is
      longer; and the words of the lines, in order, are the words of the
      paragraph, none split (break_long_words=False, break_on_hyphens=False). */
  lemma WrapShape(p: string)
    requires !IsBlank(p)
    ensures Wrap(p) != []
    ensures forall l | l in Wrap(p) :: l != "" && (|l| <= MaxChars || ' ' !in l)
    ensures forall i | 0 <= i < |Wrap(p)| :: Wrap(p)[i] == Join("", WrapGroups(p)[i])
    ensures Solid(Flatten(WrapGroups(p))) == Solid(Chunks(Munge(p)))
  {
    WrapNonEmpty(p);
    WrapLines(p);
    WrapChunksShape(Chunks(Munge(p)), false);
  }

  /** A paragraph yields exactly one empty line if and only if it is blank. */
  lemma BlankParagraph(p: string)
    ensures ParagraphLines(p) == [""] <==> IsBlank(p)
  {
    if !IsBlank(p) {
      WrapShape(p);
      assert Wrap(p)[0] in Wrap(p);
    }
  }

  /** Every line of the document is at most 92 characters, or is one word
      longer than that. */
  lemma {:induction false} LinesOfWidth(ps: seq<string>)
    ensures forall l | l in LinesOf(ps) :: |l| <= MaxChars || ' ' !in l
    decreases |ps|
  {
    if ps != [] {
      LinesOfWidth(ps[..|ps| - 1]);
      var p := ps[|ps| - 1];
      if !IsBlank(p) {
        WrapShape(p);
      }
    }
  }

  lemma RawLinesWidth(text: string)
    ensures forall l | l in RawLines(text) :: |l| <= MaxChars || ' ' !in l
  {
    LinesOfWidth(SplitLines(text));
  }

  function CountEmpty(ls: seq<string>): nat
    decreases |ls|
  {
    if ls == [] then 0 else CountEmpty(ls[..|ls| - 1]) + (if ls[|ls| - 1] == "" then 1 else 0)
  }

  function CountBlank(ps: seq<string>): nat
    decreases |ps|
  {
    if ps == [] then 0 else CountBlank(ps[..|ps| - 1]) + (if IsBlank(ps[|ps| - 1]) then 1 else 0)
  }

  lemma {:induction false} CountEmptyAppend(a: seq<string>, b: seq<string>)
    ensures CountEmpty(a + b) == CountEmpty(a) + CountEmpty(b)
    decreases |b|
  {
    if b == [] {
      assert a + b == a;
    } else {
      assert (a + b)[..|a + b| - 1] == a + b[..|b| - 1];
      CountEmptyAppend(a, b[..|b| - 1]);
    }
  }

  lemma {:induction false} NoEmptyLines(ls: seq<string>)
    requires forall i | 0 <= i < |ls| :: ls[i] != ""
    ensures CountEmpty(ls) == 0
    decreases |ls|
  {
    if ls != [] {
      NoEmptyLines(ls[..|ls| - 1]);
    }
  }

  /** Empty lines come from blank paragraphs only, one each: the paragraph
      spacing of the text is kept exactly. */
  lemma {:induction false} EmptyLinesAreParagraphBreaks(ps: seq<string>)
    ensures CountEmpty(LinesOf(ps)) == CountBlank(ps)
    decreases |ps|
  {
    if ps != [] {
      var p := ps[|ps| - 1];
      EmptyLinesAreParagraphBreaks(ps[..|ps| - 1]);
      CountEmptyAppend(LinesOf(ps[..|ps| - 1]), ParagraphLines(p));
      if IsBlank(p) {
        assert CountEmpty([""]) == 1 by {
          assert [""][..0] == [];
        }
      } else {
        WrapLines(p);
        assert forall i | 0 <= i < |Wrap(p)| :: Wrap(p)[i] in Wrap(p);
        NoEmptyLines(Wrap(p));
      }
    }
  }
}
