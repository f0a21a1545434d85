/** `build_content_stream`: the operators that draw one page of text
    (sections 9.3 and 9.4 of ISO 32000-1:2008): begin a text object, select
    font F1 at 11 points, move to the top-left start, show each line as a
    literal string, moving one line height down before every line after the
    first, and end the text object. */
module ContentStream {
  import opened PyText
  import opened Config
  import opened PdfEscape

  /** `f"({escape_pdf_text(line)}) Tj"`. */
  function ShowText(line: string): string {
    "(" + Escape(line) + ") Tj"
  }

  /** `f"0 -{LINE_H} Td"`: a relative move one line down. */
  function MoveDown(): string {
    "0 -" + Dec(LineHeight) + " Td"
  }

  /** The three operators every stream starts with. */
  function Prologue(): seq<string> {
    ["BT", "/F1 11 Tf", Dec(Left) + " " + Dec(Top) + " Td"]
  }

  /** The operators for the lines, in the order the loop appends them. */
  function LineOps(lines: seq<string>): seq<string>
    decreases |lines|
  {
    if lines == [] then []
    else
      var idx := |lines| - 1;
      LineOps(lines[..idx]) + (if idx > 0 then [MoveDown()] else []) + [ShowText(lines[idx])]
  }

  /** The whole `chunks` list of one page. */
  function Operators(lines: seq<string>): seq<string> {
    Prologue() + LineOps(lines) + ["ET"]
  }

  /** The content stream of one page: its operators, one per text line. */
  function Stream(lines: seq<string>): string {
    Join("\n", Operators(lines))
  }

  /** The loop of `build_content_stream`. */
  method BuildContentStream(pageLines: seq<string>) returns (stream: string)
    ensures stream == Stream(pageLines)
  {
    var chunks := ["BT", "/F1 11 Tf", Dec(Left) + " " + Dec(Top) + " Td"];
    for idx := 0 to |pageLines|
      invariant chunks == Prologue() + LineOps(pageLines[..idx])
    {
      LineOpsStep(pageLines, idx);
      if idx > 0 {
        chunks := chunks + ["0 -" + Dec(LineHeight) + " Td"];
      }
      chunks := chunks + ["(" + Escape(pageLines[idx]) + ") Tj"];
    }
    assert pageLines[..|pageLines|] == pageLines;
    chunks := chunks + ["ET"];
    stream := Join("\n", chunks);
  }

  /** One more turn of the loop appends the operators of line idx. */
  lemma LineOpsStep(lines: seq<string>, idx: nat)
    requires idx < |lines|
    ensures LineOps(lines[..idx + 1])
         == LineOps(lines[..idx]) + (if idx > 0 then [MoveDown()] else []) + [ShowText(lines[idx])]
  {
    assert lines[..idx + 1][..idx] == lines[..idx];
  }

  /** The line operators alternate: the text of line k at position 2k, a move
      down at every odd position; so there is exactly one `Tj` per line, in
      order, and exactly one move before each line after the first. */
  lemma {:induction false} LineOpsLayout(lines: seq<string>)
    ensures |LineOps(lines)| == if lines == [] then 0 else 2 * |lines| - 1
    ensures forall j | 0 <= j < |LineOps(lines)| ::
      LineOps(lines)[j] == if j % 2 == 0 then ShowText(lines[j / 2]) else MoveDown()
    decreases |lines|
  {
    if lines != [] {
      var idx := |lines| - 1;
      var prev := LineOps(lines[..idx]);
      LineOpsLayout(lines[..idx]);
      var ops := LineOps(lines);
      forall j | 0 <= j < |ops|
        ensures ops[j] == if j % 2 == 0 then ShowText(lines[j / 2]) else MoveDown()
      {
        if j < |prev| {
          assert ops[j] == prev[j];
          assert lines[..idx][j / 2] == lines[j / 2];
        } else if j == |ops| - 1 {
          assert j == 2 * idx && j / 2 == idx && j % 2 == 0;
        } else {
          assert j == 2 * idx - 1 && j % 2 == 1;
        }
      }
    }
  }

  /** A shown string and a move are told apart by their first character. */
  lemma ShowIsNotMove(line: string)
    ensures ShowText(line) != MoveDown()
    ensures ShowText(line)[0] == '(' && MoveDown()[0] == '0'
  {
  }

  /** Told apart, the moves are exactly the odd positions: |lines| - 1 of
      them between the |lines| shown lines. */
  lemma MovesBetweenLines(lines: seq<string>)
    ensures forall j | 0 <= j < |LineOps(lines)| :: LineOps(lines)[j] == MoveDown() <==> j % 2 == 1
  {
    LineOpsLayout(lines);
    forall j | 0 <= j < |LineOps(lines)| && j % 2 == 0
      ensures LineOps(lines)[j] != MoveDown()
    {
      ShowIsNotMove(lines[j / 2]);
    }
  }

  /** Each shown line is a balanced literal that reads back as the line. */
  lemma ShownTextReadsBack(line: string)
    ensures var e := Escape(line);
      ShowText(line) == "(" + e + ") Tj" && BalancedLiteral(e) && Unescape(e) == line
  {
    EscapedIsBalanced(line);
    EscapeRoundTrip(line);
  }

  /** The start position printed in decimal. */
  lemma StartDigits()
    ensures Dec(Left) + " " + Dec(Top) + " Td" == "50 790 Td"
  {
    assert Dec(Left) == "50" && Dec(Top) == "790";
  }

  /** The prologue joined and closed by a newline, as written out. */
  lemma PrologueText()
    ensures Join("\n", Prologue()) + "\n" == "BT\n/F1 11 Tf\n50 790 Td\n"
  {
    StartDigits();
    assert Join("\n", Prologue()) == "BT" + "\n" + ("/F1 11 Tf" + "\n" + "50 790 Td");
  }

  /** The stream is the joined prologue, a newline, then the rest. */
  lemma StreamSplit(lines: seq<string>)
    ensures Stream(lines) == Join("\n", Prologue()) + "\n" + Join("\n", LineOps(lines) + ["ET"])
  {
    var rest := LineOps(lines) + ["ET"];
    assert Operators(lines) == Prologue() + rest;
    JoinAppend("\n", Prologue(), rest);
  }

  /** The stream starts with `BT`, `/F1 11 Tf` and `50 790 Td`, one per line. */
  lemma StreamStart(lines: seq<string>)
    ensures StartsWith(Stream(lines), "BT\n/F1 11 Tf\n50 790 Td\n")
  {
    StreamSplit(lines);
    PrologueText();
    PrefixStarts("BT\n/F1 11 Tf\n50 790 Td\n", Join("\n", LineOps(lines) + ["ET"]));
  }

  /** The stream ends with `ET` on a line of its own. */
  lemma StreamEnd(lines: seq<string>)
    ensures EndsWith(Stream(lines), "\nET")
  {
    var body := Prologue() + LineOps(lines);
    assert Operators(lines) == body + ["ET"];
    JoinSnoc("\n", body, "ET");
    var j := Join("\n", body);
    assert (j + "\n" + "ET")[|j|..] == "\nET";
  }
}
