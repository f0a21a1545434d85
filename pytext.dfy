/** The parts of Python's `str`/`bytes` behaviour the PDF writer relies on:
    `str.isspace`/`str.strip`, `str.join`, `str.replace`/`bytes.replace`,
    decimal formatting (`f"{n}"`, `f"{n:010d}"`) and `encode("latin-1", errors="replace")`.
    A byte is modelled as a `char` whose code is below 256. */
module PyText {

  // ---------------------------------------------------------------------------
  // Whitespace, as CPython's str.isspace() and str.strip() see it
  // ---------------------------------------------------------------------------

  /** The characters CPython treats as whitespace (Unicode White_Space plus the
      ASCII separators 0x1C-0x1F). */
  predicate IsPySpace(c: char) {
    var n := c as int;
    (9 <= n <= 13) || (0x1C <= n <= 0x20) || n == 0x85 || n == 0xA0 || n == 0x1680 ||
    (0x2000 <= n <= 0x200A) || n == 0x2028 || n == 0x2029 || n == 0x202F || n == 0x205F ||
    n == 0x3000
  }

  /** `s.strip() == ""`: the string holds whitespace only (or nothing). */
  predicate IsBlank(s: string) {
    forall i | 0 <= i < |s| :: IsPySpace(s[i])
  }

  // ---------------------------------------------------------------------------
  // str.join
  // ---------------------------------------------------------------------------

  /** `sep.join(parts)`. */
  function Join(sep: string, parts: seq<string>): string
    decreases |parts|
  {
    if |parts| == 0 then ""
    else if |parts| == 1 then parts[0]
    else parts[0] + sep + Join(sep, parts[1..])
  }

  lemma {:induction false} JoinSnoc(sep: string, parts: seq<string>, x: string)
    requires parts != []
    ensures Join(sep, parts + [x]) == Join(sep, parts) + sep + x
    decreases |parts|
  {
    if |parts| == 1 {
      assert parts + [x] == [parts[0], x];
    } else {
      assert (parts + [x])[1..] == parts[1..] + [x];
      JoinSnoc(sep, parts[1..], x);
    }
  }

  lemma JoinCons(sep: string, x: string, rest: seq<string>)
    requires rest != []
    ensures Join(sep, [x] + rest) == x + sep + Join(sep, rest)
  {
    assert ([x] + rest)[1..] == rest;
  }

  lemma {:induction false} JoinAppend(sep: string, a: seq<string>, b: seq<string>)
    requires a != [] && b != []
    ensures Join(sep, a + b) == Join(sep, a) + sep + Join(sep, b)
    decreases |a|
  {
    if |a| == 1 {
      JoinCons(sep, a[0], b);
      assert a + b == [a[0]] + b;
    } else {
      assert (a + b)[1..] == a[1..] + b;
      JoinAppend(sep, a[1..], b);
    }
  }

  /** `"".join` distributes over concatenation of the parts. */
  lemma {:induction false} ConcatAppend(a: seq<string>, b: seq<string>)
    ensures Join("", a + b) == Join("", a) + Join("", b)
    decreases |a|
  {
    if a == [] {
      assert a + b == b;
    } else if |a| == 1 {
      if b != [] {
        assert (a + b)[1..] == b;
      } else {
        assert a + b == a;
      }
    } else {
      assert (a + b)[1..] == a[1..] + b;
      ConcatAppend(a[1..], b);
    }
  }

  lemma ConcatCons(x: string, rest: seq<string>)
    ensures Join("", [x] + rest) == x + Join("", rest)
  {
    if rest != [] {
      assert ([x] + rest)[1..] == rest;
    }
  }

  // ---------------------------------------------------------------------------
  // str.replace / bytes.replace
  // ---------------------------------------------------------------------------

  predicate StartsWith(s: string, prefix: string) {
    |prefix| <= |s| && s[..|prefix|] == prefix
  }

  /** A string starts with whatever it was built from. */
  lemma PrefixStarts(prefix: string, tail: string)
    ensures StartsWith(prefix + tail, prefix)
  {
    assert (prefix + tail)[..|prefix|] == prefix;
  }

  predicate EndsWith(s: string, suffix: string) {
    |suffix| <= |s| && s[|s| - |suffix|..] == suffix
  }

  /** Some occurrence of `pat` starts at or after the first position of `s`. */
  predicate Contains(s: string, pat: string)
    decreases |s|
  {
    StartsWith(s, pat) || (s != [] && Contains(s[1..], pat))
  }

  /** `s.replace(pat, rep)`: every non-overlapping occurrence of `pat`, scanning
      left to right, is replaced by `rep`; an empty `pat` inserts `rep` before
      every character and at the end, as Python does. */
  function ReplaceAll(s: string, pat: string, rep: string): string
    decreases |s|
  {
    if |pat| == 0 then
      (if s == [] then rep else rep + [s[0]] + ReplaceAll(s[1..], pat, rep))
    else if StartsWith(s, pat) then rep + ReplaceAll(s[|pat|..], pat, rep)
    else if s == [] then []
    else [s[0]] + ReplaceAll(s[1..], pat, rep)
  }

  /** An occurrence at the front is replaced, and scanning resumes after it. */
  lemma ReplaceFront(pat: string, s: string, rep: string)
    requires |pat| > 0
    ensures ReplaceAll(pat + s, pat, rep) == rep + ReplaceAll(s, pat, rep)
  {
    assert (pat + s)[..|pat|] == pat;
    assert (pat + s)[|pat|..] == s;
  }

  /** A string in which `pat` cannot occur is left as it is by `replace`. */
  lemma {:induction false} ReplaceAbsent(s: string, pat: string, rep: string)
    requires !Contains(s, pat) && |pat| > 0
    ensures ReplaceAll(s, pat, rep) == s
    decreases |s|
  {
    if s != [] {
      ReplaceAbsent(s[1..], pat, rep);
    }
  }

  /** A prefix holding no character equal to the first one of `pat` is copied
      unchanged, and cannot be where an occurrence starts. */
  lemma {:induction false} SkipClear(a: string, s: string, pat: string, rep: string)
    requires |pat| > 0 && pat[0] !in a
    ensures ReplaceAll(a + s, pat, rep) == a + ReplaceAll(s, pat, rep)
    ensures Contains(a + s, pat) == Contains(s, pat)
    decreases |a|
  {
    if a != [] {
      assert (a + s)[0] == a[0];
      assert (a + s)[1..] == a[1..] + s;
      SkipClear(a[1..], s, pat, rep);
    } else {
      assert a + s == s;
    }
  }

  /** One position where `pat` does not start is copied unchanged. */
  lemma SkipOne(s: string, pat: string, rep: string)
    requires |pat| > 0 && s != [] && !StartsWith(s, pat)
    ensures ReplaceAll(s, pat, rep) == [s[0]] + ReplaceAll(s[1..], pat, rep)
    ensures Contains(s, pat) == Contains(s[1..], pat)
  {
  }

  /** A string lacking the second character of `pat` holds no occurrence of it. */
  lemma {:induction false} LacksSecond(s: string, pat: string)
    requires |pat| >= 2 && pat[1] !in s
    ensures !Contains(s, pat)
    decreases |s|
  {
    if s != [] {
      LacksSecond(s[1..], pat);
    }
  }

  /** No occurrence of `pat` can start inside `h`, whatever follows it: every
      character equal to the first of `pat` is followed, within `h`, by one
      that differs from the second. */
  predicate NoMatchStart(h: string, pat: string)
    requires |pat| >= 2
  {
    forall i | 0 <= i < |h| :: h[i] != pat[0] || (i + 1 < |h| && h[i + 1] != pat[1])
  }

  /** Where `h` starts, `pat` does not, whatever follows `h`. */
  lemma NoMatchHere(h: string, rest: string, pat: string)
    requires |pat| >= 2 && h != [] && NoMatchStart(h, pat)
    ensures !StartsWith(h + rest, pat)
  {
    var s := h + rest;
    assert s[0] == h[0];
    if h[0] == pat[0] {
      assert s[1] == h[1] != pat[1];
      assert |s| < |pat| || s[..|pat|][1] != pat[1];
    } else {
      assert |s| < |pat| || s[..|pat|][0] != pat[0];
    }
  }

  /** The property survives dropping the first character. */
  lemma NoMatchTail(h: string, pat: string)
    requires |pat| >= 2 && h != [] && NoMatchStart(h, pat)
    ensures NoMatchStart(h[1..], pat)
  {
    var t := h[1..];
    forall i | 0 <= i < |t|
      ensures t[i] != pat[0] || (i + 1 < |t| && t[i + 1] != pat[1])
    {
      assert t[i] == h[i + 1];
    }
  }

  /** Putting the first character back in front. */
  lemma ConsAssoc(h: string, x: string)
    requires h != []
    ensures [h[0]] + (h[1..] + x) == h + x
  {
    assert h == [h[0]] + h[1..];
  }

  lemma {:induction false} SkipPrefix(h: string, rest: string, pat: string, rep: string)
    requires |pat| >= 2 && NoMatchStart(h, pat)
    ensures ReplaceAll(h + rest, pat, rep) == h + ReplaceAll(rest, pat, rep)
    ensures Contains(h + rest, pat) == Contains(rest, pat)
    decreases |h|
  {
    if h == [] {
      assert h + rest == rest;
    } else {
      NoMatchHere(h, rest, pat);
      SkipOne(h + rest, pat, rep);
      assert (h + rest)[1..] == h[1..] + rest;
      NoMatchTail(h, pat);
      SkipPrefix(h[1..], rest, pat, rep);
      ConsAssoc(h, ReplaceAll(rest, pat, rep));
    }
  }

  /** Replacing a single character `c` by `r` everywhere, one character at a time. */
  function ReplaceChar(s: string, c: char, r: string): string
    decreases |s|
  {
    if s == [] then [] else (if s[0] == c then r else [s[0]]) + ReplaceChar(s[1..], c, r)
  }

  /** For a one-character pattern, Python's replace is the per-character map. */
  lemma {:induction false} ReplaceSingle(s: string, c: char, r: string)
    ensures ReplaceAll(s, [c], r) == ReplaceChar(s, c, r)
    decreases |s|
  {
    if s != [] {
      ReplaceSingle(s[1..], c, r);
    }
  }

  lemma {:induction false} ReplaceCharAppend(a: string, b: string, c: char, r: string)
    ensures ReplaceChar(a + b, c, r) == ReplaceChar(a, c, r) + ReplaceChar(b, c, r)
    decreases |a|
  {
    if a == [] {
      assert a + b == b;
    } else {
      assert (a + b)[1..] == a[1..] + b;
      ReplaceCharAppend(a[1..], b, c, r);
    }
  }

  // ---------------------------------------------------------------------------
  // Decimal formatting: f"{n}" and f"{n:010d}"
  // ---------------------------------------------------------------------------

  predicate IsDigit(c: char) {
    '0' <= c <= '9'
  }

  predicate AllDigits(s: string) {
    forall i | 0 <= i < |s| :: IsDigit(s[i])
  }

  function DigitChar(d: nat): (c: char)
    requires d < 10
    ensures IsDigit(c) && c as int - '0' as int == d
  {
    ('0' as int + d) as char
  }

  /** `f"{n}"`: the decimal digits of `n`, no sign, no leading zero. */
  function Dec(n: nat): (r: string)
    ensures |r| >= 1 && AllDigits(r)
    ensures r[0] == '0' <==> n == 0
    decreases n
  {
    if n < 10 then [DigitChar(n)] else Dec(n / 10) + [DigitChar(n % 10)]
  }

  /** Reading a run of decimal digits back as a number. */
  function ParseDec(s: string): nat
    requires AllDigits(s)
    decreases |s|
  {
    if s == [] then 0
    else ParseDec(s[..|s| - 1]) * 10 + (s[|s| - 1] as int - '0' as int)
  }

  /** `s` is a run of decimal digits that reads back as `n`. */
  predicate IsDecimalOf(s: string, n: nat) {
    AllDigits(s) && ParseDec(s) == n
  }

  lemma {:induction false} DecRoundTrip(n: nat)
    ensures ParseDec(Dec(n)) == n
    decreases n
  {
    if n >= 10 {
      var d := Dec(n);
      assert d[..|d| - 1] == Dec(n / 10);
      DecRoundTrip(n / 10);
    }
  }

  function Zeros(k: nat): (r: string)
    ensures |r| == k && AllDigits(r)
    ensures forall i | 0 <= i < k :: r[i] == '0'
  {
    seq(k, _ => '0')
  }

  lemma {:induction false} LeadingZeros(k: nat, s: string)
    requires AllDigits(s)
    ensures ParseDec(Zeros(k) + s) == ParseDec(s)
    decreases |s|
  {
    if s == [] {
      assert Zeros(k) + s == Zeros(k);
      AllZeros(k);
    } else {
      var t := Zeros(k) + s;
      assert t[..|t| - 1] == Zeros(k) + s[..|s| - 1];
      LeadingZeros(k, s[..|s| - 1]);
    }
  }

  lemma {:induction false} AllZeros(k: nat)
    ensures ParseDec(Zeros(k)) == 0
    decreases k
  {
    if k > 0 {
      assert Zeros(k)[..k - 1] == Zeros(k - 1);
      AllZeros(k - 1);
    }
  }

  function Pow10(k: nat): (r: nat)
    ensures r >= 1
  {
    if k == 0 then 1 else 10 * Pow10(k - 1)
  }

  lemma {:induction false} DecLength(n: nat, k: nat)
    requires 1 <= k && n < Pow10(k)
    ensures |Dec(n)| <= k
    decreases k
  {
    if n >= 10 {
      assert k >= 2;
      DecLength(n / 10, k - 1);
    }
  }

  /** `f"{n:010d}"` for a non-negative `n`: zero-padded to ten digits; a number
      of more than ten digits is written in full. */
  function Pad10(n: nat): string {
    var d := Dec(n);
    if |d| >= 10 then d else Zeros(10 - |d|) + d
  }

  /** The padded form is only digits, and never shorter than ten. */
  lemma Pad10Digits(n: nat)
    ensures |Pad10(n)| >= 10 && AllDigits(Pad10(n))
  {
  }

  /** 10^10: the first number whose decimal form has more than ten digits. */
  const TenDigitLimit: nat := 10_000_000_000

  /** Below 10^10 the padded form is exactly ten digits and reads back as `n`. */
  lemma Pad10RoundTrip(n: nat)
    requires n < TenDigitLimit
    ensures |Pad10(n)| == 10 && AllDigits(Pad10(n)) && ParseDec(Pad10(n)) == n
  {
    assert Pow10(10) == TenDigitLimit;
    DecLength(n, 10);
    DecRoundTrip(n);
    if |Dec(n)| < 10 {
      LeadingZeros(10 - |Dec(n)|, Dec(n));
    }
  }

  // ---------------------------------------------------------------------------
  // encode("latin-1", errors="replace")
  // ---------------------------------------------------------------------------

  predicate IsLatin1(s: string) {
    forall i | 0 <= i < |s| :: s[i] as int < 256
  }

  /** One byte per character; a character outside Latin-1 becomes '?'. */
  function Encode(s: string): (b: string)
    ensures |b| == |s|
  {
    seq(|s|, i requires 0 <= i < |s| => if s[i] as int < 256 then s[i] else '?')
  }

  /** Every character of the result is a byte: itself when it fits, '?'
      otherwise. */
  lemma EncodeBytes(s: string)
    ensures IsLatin1(Encode(s))
    ensures forall i | 0 <= i < |s| :: Encode(s)[i] == (if s[i] as int < 256 then s[i] else '?')
  {
  }

  lemma EncodeLatin1(s: string)
    requires IsLatin1(s)
    ensures Encode(s) == s
  {
  }

  lemma EncodeAppend(a: string, b: string)
    ensures Encode(a + b) == Encode(a) + Encode(b)
  {
  }

  lemma Latin1Append(a: string, b: string)
    requires IsLatin1(a) && IsLatin1(b)
    ensures IsLatin1(a + b)
  {
  }

  /** Every string of the list is a byte string. */
  predicate AllLatin1(parts: seq<string>) {
    forall i | 0 <= i < |parts| :: IsLatin1(parts[i])
  }

  lemma AllLatin1Append(a: seq<string>, b: seq<string>)
    requires AllLatin1(a) && AllLatin1(b)
    ensures AllLatin1(a + b)
  {
    forall i | 0 <= i < |a + b|
      ensures IsLatin1((a + b)[i])
    {
      if i >= |a| {
        var j := i - |a|;
        assert (a + b)[i] == b[j];
      }
    }
  }

  /** Decimal digits are ASCII. */
  lemma DigitsLatin1(s: string)
    requires AllDigits(s)
    ensures IsLatin1(s)
  {
  }

  /** Joining byte strings with a byte separator gives a byte string. */
  lemma {:induction false} JoinLatin1(sep: string, parts: seq<string>)
    requires IsLatin1(sep) && forall i | 0 <= i < |parts| :: IsLatin1(parts[i])
    ensures IsLatin1(Join(sep, parts))
    decreases |parts|
  {
    if |parts| > 1 {
      JoinLatin1(sep, parts[1..]);
      Latin1Append(parts[0], sep);
      Latin1Append(parts[0] + sep, Join(sep, parts[1..]));
    }
  }

  /** Replacing within a byte string by a byte string gives a byte string. */
  lemma {:induction false} ReplaceLatin1(s: string, pat: string, rep: string)
    requires IsLatin1(s) && IsLatin1(rep)
    ensures IsLatin1(ReplaceAll(s, pat, rep))
    decreases |s|
  {
    if |pat| == 0 {
      if s != [] {
        ReplaceLatin1(s[1..], pat, rep);
        Latin1Append(rep, [s[0]]);
        Latin1Append(rep + [s[0]], ReplaceAll(s[1..], pat, rep));
      }
    } else if StartsWith(s, pat) {
      ReplaceLatin1(s[|pat|..], pat, rep);
      Latin1Append(rep, ReplaceAll(s[|pat|..], pat, rep));
    } else if s != [] {
      ReplaceLatin1(s[1..], pat, rep);
      Latin1Append([s[0]], ReplaceAll(s[1..], pat, rep));
    }
  }
}
