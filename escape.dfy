/** `escape_pdf_text`: makes a line safe inside a PDF literal string
    `( ... )` (section 7.3.4.2 of ISO 32000-1:2008) by putting a backslash
    before every backslash and every parenthesis. */
module PdfEscape {
  import opened PyText

  /** The three chained `str.replace` calls, backslash first. */
  function Escape(s: string): string {
    ReplaceAll(ReplaceAll(ReplaceAll(s, "\\", "\\\\"), "(", "\\("), ")", "\\)")
  }

  /** The characters that are significant inside a literal string. */
  predicate IsSpecial(c: char) {
    c == '\\' || c == '(' || c == ')'
  }

  /** Reference definition, one character at a time: a special character gets
      exactly one backslash in front of it, every other character is kept. */
  function EscapeEach(s: string): string
    decreases |s|
  {
    if s == [] then []
    else (if IsSpecial(s[0]) then ['\\', s[0]] else [s[0]]) + EscapeEach(s[1..])
  }

  /** The three passes, each written as the per-character replacement. */
  function ThreePasses(s: string): string {
    ReplaceChar(ReplaceChar(ReplaceChar(s, '\\', "\\\\"), '(', "\\("), ')', "\\)")
  }

  lemma {:induction false} ThreePassesAreEach(s: string)
    ensures ThreePasses(s) == EscapeEach(s)
    decreases |s|
  {
    if s != [] {
      var c, t := s[0], s[1..];
      var x1 := if c == '\\' then "\\\\" else [c];
      assert ReplaceChar(s, '\\', "\\\\") == x1 + ReplaceChar(t, '\\', "\\\\");
      var r1 := ReplaceChar(t, '\\', "\\\\");
      ReplaceCharAppend(x1, r1, '(', "\\(");
      var x2 := ReplaceChar(x1, '(', "\\(");
      var r2 := ReplaceChar(r1, '(', "\\(");
      ReplaceCharAppend(x2, r2, ')', "\\)");
      var x3 := ReplaceChar(x2, ')', "\\)");
      assert x3 == (if IsSpecial(c) then ['\\', c] else [c]);
      ThreePassesAreEach(t);
    }
  }

  /** Python's chained replace is the per-character escape. */
  lemma EscapeIsPerCharacter(s: string)
    ensures Escape(s) == EscapeEach(s)
  {
    var a := ReplaceAll(s, "\\", "\\\\");
    ReplaceSingle(s, '\\', "\\\\");
    var b := ReplaceAll(a, "(", "\\(");
    ReplaceSingle(a, '(', "\\(");
    ReplaceSingle(b, ')', "\\)");
    ThreePassesAreEach(s);
  }

  /** What a PDF reader does with the escapes this writer produces: a backslash
      makes the next character literal. */
  function Unescape(s: string): string
    decreases |s|
  {
    if s == [] then []
    else if s[0] == '\\' && |s| >= 2 then [s[1]] + Unescape(s[2..])
    else [s[0]] + Unescape(s[1..])
  }

  lemma {:induction false} UnescapeEach(s: string)
    ensures Unescape(EscapeEach(s)) == s
    decreases |s|
  {
    if s != [] {
      var e := EscapeEach(s);
      if IsSpecial(s[0]) {
        assert e[2..] == EscapeEach(s[1..]);
      } else {
        assert e[1..] == EscapeEach(s[1..]);
      }
      UnescapeEach(s[1..]);
    }
  }

  /** Round trip: a reader recovers exactly the line that was escaped. */
  lemma EscapeRoundTrip(s: string)
    ensures Unescape(Escape(s)) == s
  {
    EscapeIsPerCharacter(s);
    UnescapeEach(s);
  }

  /** The body of a literal string that a reader closes at the right place:
      no bare parenthesis, and no backslash left dangling at the end. */
  predicate BalancedLiteral(s: string)
    decreases |s|
  {
    if s == [] then true
    else if s[0] == '\\' then |s| >= 2 && BalancedLiteral(s[2..])
    else s[0] != '(' && s[0] != ')' && BalancedLiteral(s[1..])
  }

  lemma {:induction false} EscapeEachBalanced(s: string)
    ensures BalancedLiteral(EscapeEach(s))
    decreases |s|
  {
    if s != [] {
      var e := EscapeEach(s);
      if IsSpecial(s[0]) {
        assert e[2..] == EscapeEach(s[1..]);
      } else {
        assert e[1..] == EscapeEach(s[1..]);
      }
      EscapeEachBalanced(s[1..]);
    }
  }

  /** Any line, once escaped, can be placed between `(` and `)`. */
  lemma EscapedIsBalanced(s: string)
    ensures BalancedLiteral(Escape(s))
  {
    EscapeIsPerCharacter(s);
    EscapeEachBalanced(s);
  }

  function CountSpecial(s: string): nat
    decreases |s|
  {
    if s == [] then 0 else (if IsSpecial(s[0]) then 1 else 0) + CountSpecial(s[1..])
  }

  lemma {:induction false} EscapeEachLength(s: string)
    ensures |EscapeEach(s)| == |s| + CountSpecial(s)
    decreases |s|
  {
    if s != [] {
      EscapeEachLength(s[1..]);
    }
  }

  /** Exactly one character is added per backslash or parenthesis. */
  lemma EscapeLength(s: string)
    ensures |Escape(s)| == |s| + CountSpecial(s)
  {
    EscapeIsPerCharacter(s);
    EscapeEachLength(s);
  }
}
