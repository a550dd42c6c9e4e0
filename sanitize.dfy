/**
 * The text sanitiser `clean_text_for_js`: a fixed chain of rewrites applied to the SSID, MAC and
 * capability strings before they are written out for the page script.
 */
module Sanitize {
  import opened Wrappers

  /** Longest text the sanitiser lets through. */
  const MaxLength: nat := 100
  /** Characters kept in front of the ellipsis when a text is cut. */
  const KeptLength: nat := 97
  const Ellipsis: string := "..."

  /** The deleted class: U+0000-U+001F and U+007F-U+009F. */
  predicate IsControl(c: char) {
    c <= '\U{1F}' || ('\U{7F}' <= c && c <= '\U{9F}')
  }

  predicate IsQuote(c: char) {
    c == '\'' || c == '"'
  }

  /** The three characters that become a space before control characters are deleted. */
  predicate IsLineBreak(c: char) {
    c == '\n' || c == '\r' || c == '\t'
  }

  /** Python's `str.isspace`, the characters `str.strip()` removes. */
  predicate IsSpace(c: char) {
    || ('\t' <= c && c <= '\r')
    || ('\U{1C}' <= c && c <= ' ')
    || c == '\U{85}' || c == '\U{A0}' || c == '\U{1680}'
    || ('\U{2000}' <= c && c <= '\U{200A}')
    || c == '\U{2028}' || c == '\U{2029}' || c == '\U{202F}' || c == '\U{205F}' || c == '\U{3000}'
  }

  predicate NoControl(s: string) {
    forall i :: 0 <= i < |s| ==> !IsControl(s[i])
  }

  /** Every quote character has a backslash immediately in front of it. */
  predicate QuotesEscaped(s: string) {
    forall i :: 0 <= i < |s| && IsQuote(s[i]) ==> 0 < i && s[i - 1] == '\\'
  }

  /** Neither end is whitespace. */
  predicate IsStripped(s: string) {
    s == [] || (!IsSpace(s[0]) && !IsSpace(s[|s| - 1]))
  }

  // ----- The rewrites, one function per step -----

  /** `s.replace(target, replacement)` for a one-character `target`. */
  function Replace(s: string, target: char, replacement: string): string
  {
    if s == [] then []
    else (if s[0] == target then replacement else [s[0]]) + Replace(s[1..], target, replacement)
  }

  function EscapeQuotes(s: string): string {
    Replace(Replace(s, '\'', "\\'"), '"', "\\\"")
  }

  function BlankLineBreaks(s: string): string {
    Replace(Replace(Replace(s, '\n', " "), '\r', " "), '\t', " ")
  }

  /** `re.sub(r'[\x00-\x1f\x7f-\x9f]', '', s)`. */
  function DropControls(s: string): string
  {
    if s == [] then []
    else (if IsControl(s[0]) then [] else [s[0]]) + DropControls(s[1..])
  }

  /** The text after escaping, blanking and deleting, before it is cut and stripped. */
  function Cleaned(s: string): string {
    DropControls(BlankLineBreaks(EscapeQuotes(s)))
  }

  function Truncate(s: string): string {
    if |s| > MaxLength then s[..KeptLength] + Ellipsis else s
  }

  /** `s.lstrip()`: `r` is `s` without its leading whitespace. */
  function LStrip(s: string): (r: string)
    ensures |r| <= |s| && r == s[|s| - |r|..]
    ensures forall i :: 0 <= i < |s| - |r| ==> IsSpace(s[i])
    ensures r == [] || !IsSpace(r[0])
  {
    if s != [] && IsSpace(s[0]) then LStrip(s[1..]) else s
  }

  /** `s.rstrip()`: `r` is `s` without its trailing whitespace. */
  function RStrip(s: string): (r: string)
    ensures |r| <= |s| && r == s[..|r|]
    ensures forall i :: |r| <= i < |s| ==> IsSpace(s[i])
    ensures r == [] || !IsSpace(r[|r| - 1])
  {
    if s != [] && IsSpace(s[|s| - 1]) then RStrip(s[..|s| - 1]) else s
  }

  function Strip(s: string): string {
    RStrip(LStrip(s))
  }

  /** `clean_text_for_js(text)`. */
  function CleanTextForJs(text: Option<string>): string {
    match text
    case None => ""
    case Some(t) => Strip(Truncate(Cleaned(t)))
  }

  /** What the cleaner promises of its output. */
  predicate SafeText(s: string) {
    |s| <= MaxLength && NoControl(s) && QuotesEscaped(s) && IsStripped(s)
  }

  /**
   * Whatever the text, the result is at most 100 characters long, has no control character, has
   * a backslash before every quote and no whitespace at either end; a missing text gives "".
   */
  lemma CleanTextIsSafe(text: Option<string>)
    ensures text.None? ==> CleanTextForJs(text) == ""
    ensures |CleanTextForJs(text)| <= MaxLength
    ensures NoControl(CleanTextForJs(text))
    ensures QuotesEscaped(CleanTextForJs(text))
    ensures IsStripped(CleanTextForJs(text))
  {
    if text.Some? {
      var t := text.value;
      var c := Cleaned(t);
      CleanedIsCharwise(t);
      CharwiseIsSafe(t);
      TruncateIsSafe(c);
      StripIsSafe(Truncate(c));
    }
  }

  // ----- A reference definition: the first three steps act character by character -----

  /** What one input character becomes after escaping, blanking and deleting. */
  function CharImage(c: char): string {
    if c == '\'' then "\\'"
    else if c == '"' then "\\\""
    else if IsLineBreak(c) then " "
    else if IsControl(c) then ""
    else [c]
  }

  function Charwise(s: string): string
  {
    if s == [] then [] else CharImage(s[0]) + Charwise(s[1..])
  }

  lemma {:induction false} ReplaceConcat(a: string, b: string, target: char, replacement: string)
    ensures Replace(a + b, target, replacement) == Replace(a, target, replacement) + Replace(b, target, replacement)
  {
    if a == [] {
      assert a + b == b;
    } else {
      assert (a + b)[1..] == a[1..] + b;
      ReplaceConcat(a[1..], b, target, replacement);
    }
  }

  lemma {:induction false} ReplaceAbsent(s: string, target: char, replacement: string)
    requires target !in s
    ensures Replace(s, target, replacement) == s
  {
    if s != [] {
      ReplaceAbsent(s[1..], target, replacement);
    }
  }

  lemma {:induction false} DropControlsConcat(a: string, b: string)
    ensures DropControls(a + b) == DropControls(a) + DropControls(b)
  {
    if a == [] {
      assert a + b == b;
    } else {
      assert (a + b)[1..] == a[1..] + b;
      DropControlsConcat(a[1..], b);
    }
  }

  lemma {:induction false} DropControlsKeeps(s: string)
    requires NoControl(s)
    ensures DropControls(s) == s
  {
    if s != [] {
      DropControlsKeeps(s[1..]);
    }
  }

  lemma CleanedConcat(a: string, b: string)
    ensures Cleaned(a + b) == Cleaned(a) + Cleaned(b)
  {
    var e1a, e1b := Replace(a, '\'', "\\'"), Replace(b, '\'', "\\'");
    ReplaceConcat(a, b, '\'', "\\'");
    ReplaceConcat(e1a, e1b, '"', "\\\"");
    var e2a, e2b := EscapeQuotes(a), EscapeQuotes(b);
    ReplaceConcat(e2a, e2b, '\n', " ");
    var n3a, n3b := Replace(e2a, '\n', " "), Replace(e2b, '\n', " ");
    ReplaceConcat(n3a, n3b, '\r', " ");
    var r4a, r4b := Replace(n3a, '\r', " "), Replace(n3b, '\r', " ");
    ReplaceConcat(r4a, r4b, '\t', " ");
    DropControlsConcat(BlankLineBreaks(e2a), BlankLineBreaks(e2b));
  }

  lemma ReplaceOne(c: char, target: char, replacement: string)
    ensures Replace([c], target, replacement) == if c == target then replacement else [c]
  {
    assert [c][1..] == [];
  }

  lemma DropControlsOne(c: char)
    ensures DropControls([c]) == if IsControl(c) then [] else [c]
  {
    assert [c][1..] == [];
  }

  /** The chain of rewrites, applied to one character, gives that character's image. */
  lemma CleanedChar(c: char)
    ensures Cleaned([c]) == CharImage(c)
  {
    if IsQuote(c) {
      CleanedQuoteChar(c);
      assert CharImage(c) == ['\\', c];
    } else {
      CleanedOtherChar(c);
    }
  }

  /** A quote is cleaned to a backslash followed by that quote. */
  lemma CleanedQuoteChar(c: char)
    requires IsQuote(c)
    ensures Cleaned([c]) == ['\\', c]
  {
    ReplaceOne(c, '\'', "\\'");
    var q1 := Replace([c], '\'', "\\'");
    var q2 := Replace(q1, '"', "\\\"");
    if c == '\'' {
      ReplaceAbsent(q1, '"', "\\\"");
    } else {
      ReplaceOne(c, '"', "\\\"");
    }
    ReplaceAbsent(q2, '\n', " ");
    ReplaceAbsent(q2, '\r', " ");
    ReplaceAbsent(q2, '\t', " ");
    DropControlsKeeps(q2);
  }

  lemma CleanedOtherChar(c: char)
    requires !IsQuote(c)
    ensures Cleaned([c]) == CharImage(c)
  {
    ReplaceOne(c, '\'', "\\'");
    ReplaceOne(c, '"', "\\\"");
    assert EscapeQuotes([c]) == [c];
    ReplaceOne(c, '\n', " ");
    var n := Replace([c], '\n', " ");
    if c == '\n' {
      ReplaceAbsent(n, '\r', " ");
      ReplaceAbsent(n, '\t', " ");
      DropControlsKeeps(n);
    } else {
      ReplaceOne(c, '\r', " ");
      var r := Replace(n, '\r', " ");
      if c == '\r' {
        ReplaceAbsent(r, '\t', " ");
        DropControlsKeeps(r);
      } else {
        ReplaceOne(c, '\t', " ");
        if c == '\t' {
          DropControlsKeeps(" ");
        } else {
          DropControlsOne(c);
        }
      }
    }
  }

  /** The escaping, blanking and deleting steps replace each character by its image. */
  lemma {:induction false} CleanedIsCharwise(s: string)
    ensures Cleaned(s) == Charwise(s)
  {
    if s == [] {
      assert EscapeQuotes(s) == [];
    } else {
      assert s == [s[0]] + s[1..];
      CleanedConcat([s[0]], s[1..]);
      CleanedChar(s[0]);
      CleanedIsCharwise(s[1..]);
    }
  }

  // ----- Safety of each stage -----

  lemma EscapedConcat(a: string, b: string)
    requires QuotesEscaped(a) && QuotesEscaped(b)
    ensures QuotesEscaped(a + b)
  {
    forall i | 0 <= i < |a + b| && IsQuote((a + b)[i])
      ensures 0 < i && (a + b)[i - 1] == '\\'
    {
      if i >= |a| {
        var j := i - |a|;
        assert b[j] == (a + b)[i];
        if j > 0 {
          assert (a + b)[i - 1] == b[j - 1];
        }
      }
    }
  }

  /** The image of any text has no control characters and only escaped quotes. */
  lemma {:induction false} CharwiseIsSafe(s: string)
    ensures NoControl(Charwise(s)) && QuotesEscaped(Charwise(s))
  {
    if s != [] {
      CharwiseIsSafe(s[1..]);
      var head := CharImage(s[0]);
      assert QuotesEscaped(head);
      EscapedConcat(head, Charwise(s[1..]));
    }
  }

  lemma TruncateIsSafe(s: string)
    requires NoControl(s) && QuotesEscaped(s)
    ensures |Truncate(s)| <= MaxLength
    ensures NoControl(Truncate(s)) && QuotesEscaped(Truncate(s))
  {
    if |s| > MaxLength {
      var kept := s[..KeptLength];
      assert QuotesEscaped(kept);
      assert QuotesEscaped(Ellipsis);
      EscapedConcat(kept, Ellipsis);
    }
  }

  lemma StripIsSafe(s: string)
    requires NoControl(s) && QuotesEscaped(s)
    ensures |Strip(s)| <= |s|
    ensures NoControl(Strip(s)) && QuotesEscaped(Strip(s)) && IsStripped(Strip(s))
  {
    var l := LStrip(s);
    var k := |s| - |l|;
    forall i | 0 <= i < |l| && IsQuote(l[i])
      ensures 0 < i && l[i - 1] == '\\'
    {
      assert l[i] == s[k + i];
      assert s[k + i - 1] == '\\';
    }
    assert QuotesEscaped(l);
  }

  // ----- What the sanitiser does to particular texts -----

  /** A text whose cleaned form fits the limit and has no whitespace at its ends comes out as that form. */
  lemma CleanTextIs(t: string, c: string)
    requires Cleaned(t) == c && |c| <= MaxLength
    requires c != [] && !IsSpace(c[0]) && !IsSpace(c[|c| - 1])
    ensures CleanTextForJs(Some(t)) == c
  {
  }

  lemma {:induction false} LStripAppend(x: string, y: string)
    requires y != [] && !IsSpace(y[0])
    ensures LStrip(x + y) == LStrip(x) + y
  {
    if x == [] {
      assert x + y == y;
    } else if IsSpace(x[0]) {
      assert (x + y)[1..] == x[1..] + y;
      LStripAppend(x[1..], y);
    }
  }

  /**
   * A text that is still longer than the limit after escaping, blanking and deleting keeps its
   * first 97 characters, minus their leading whitespace, followed by the ellipsis.
   */
  lemma LongTextIsTruncated(t: string)
    requires |Cleaned(t)| > MaxLength
    ensures CleanTextForJs(Some(t)) == LStrip(Cleaned(t)[..KeptLength]) + Ellipsis
  {
    var kept := Cleaned(t)[..KeptLength];
    LStripAppend(kept, Ellipsis);
    var l := LStrip(kept) + Ellipsis;
    assert l[|l| - 1] == '.';
  }

  /** The first three steps with every line break written as a space and everything else kept. */
  function Blanked(s: string): (r: string)
    ensures |r| == |s|
  {
    seq(|s|, i requires 0 <= i < |s| => if IsLineBreak(s[i]) then ' ' else s[i])
  }

  lemma {:induction false} CharwiseBlanks(s: string)
    requires forall i :: 0 <= i < |s| ==> !IsQuote(s[i]) && (IsControl(s[i]) ==> IsLineBreak(s[i]))
    ensures Charwise(s) == Blanked(s)
  {
    if s != [] {
      CharwiseBlanks(s[1..]);
      assert CharImage(s[0]) == [Blanked(s)[0]];
      assert Blanked(s[1..]) == Blanked(s)[1..];
    }
  }

  /**
   * Line feeds, carriage returns and tabs become spaces rather than being deleted: in a text
   * without quotes or other control characters each of them is replaced and nothing else changes.
   */
  lemma LineBreaksBecomeSpaces(s: string)
    requires forall i :: 0 <= i < |s| ==> !IsQuote(s[i]) && (IsControl(s[i]) ==> IsLineBreak(s[i]))
    ensures |Cleaned(s)| == |s|
    ensures forall i :: 0 <= i < |s| ==> Cleaned(s)[i] == if IsLineBreak(s[i]) then ' ' else s[i]
  {
    CleanedIsCharwise(s);
    CharwiseBlanks(s);
  }

  /**
   * A line break between two plain words comes out as a single space, and the words are kept
   * unchanged.
   */
  lemma LineBreakBetweenWords(a: string, b: string, nl: char)
    requires Plain(a) && Plain(b) && IsLineBreak(nl)
    requires a != [] && !IsSpace(a[0]) && b != [] && !IsSpace(b[|b| - 1])
    requires |a| + |b| < MaxLength
    ensures CleanTextForJs(Some(a + [nl] + b)) == a + " " + b
  {
    var c := a + " " + b;
    assert Cleaned(a + [nl] + b) == c by {
      CleanedConcat(a + [nl], b);
      CleanedConcat(a, [nl]);
      PlainIsKept(a);
      PlainIsKept(b);
      CleanedChar(nl);
    }
    CleanTextIs(a + [nl] + b, c);
  }

  /** `clean_text_for_js("Home\nWiFi")` is `"Home WiFi"`. */
  lemma HomeWifiExample(home: string, wifi: string)
    requires home == "Home" && wifi == "WiFi"
    ensures CleanTextForJs(Some(home + "\n" + wifi)) == home + " " + wifi
  {
    assert Plain(home) && Plain(wifi);
    LineBreakBetweenWords(home, wifi, '\n');
  }

  /** No quote and no control character: left alone by the first three steps. */
  predicate Plain(s: string) {
    forall i :: 0 <= i < |s| ==> !IsQuote(s[i]) && !IsControl(s[i])
  }

  lemma {:induction false} PlainIsKept(s: string)
    requires Plain(s)
    ensures Cleaned(s) == s
  {
    CleanedIsCharwise(s);
    if s != [] {
      PlainIsKept(s[1..]);
      CleanedIsCharwise(s[1..]);
      assert s == [s[0]] + s[1..];
    }
  }

  /** A text whose cleaned form is too long, and whose first 97 cleaned characters start with no whitespace, is cut there. */
  lemma CleanTextIsCut(t: string, c: string, k: string)
    requires Cleaned(t) == c && |c| > MaxLength && c[..KeptLength] == k
    requires !IsSpace(k[0])
    ensures CleanTextForJs(Some(t)) == k + Ellipsis
  {
    LongTextIsTruncated(t);
  }

  /** Cleaning a plain text followed by a quote and another plain text escapes just that quote. */
  lemma CleanedAroundQuote(p: string, q: char, rest: string)
    requires Plain(p) && IsQuote(q) && Plain(rest)
    ensures Cleaned(p + [q] + rest) == p + ['\\', q] + rest
  {
    CleanedConcat(p + [q], rest);
    CleanedConcat(p, [q]);
    CleanedQuoteChar(q);
    PlainIsKept(p);
    PlainIsKept(rest);
  }

  /**
   * The cut can fall between an inserted backslash and its quote: a quote as the 97th character
   * of an otherwise plain text leaves a lone backslash in front of the ellipsis, and the quote is
   * lost.
   */
  lemma TruncationSplitsEscape(p: string, q: char, rest: string)
    requires |p| == KeptLength - 1 && Plain(p) && !IsSpace(p[0])
    requires IsQuote(q) && |rest| >= 3 && Plain(rest)
    ensures CleanTextForJs(Some(p + [q] + rest)) == p + ['\\'] + Ellipsis
  {
    var c := p + ['\\', q] + rest;
    CleanedAroundQuote(p, q, rest);
    assert c[..KeptLength] == p + ['\\'];
    CleanTextIsCut(p + [q] + rest, c, p + ['\\']);
  }

  /**
   * Backslashes already in the text are not doubled, so a backslash-quote pair comes out as two
   * backslashes and a quote: the quote has a backslash in front of it, but in a JavaScript string
   * literal that backslash escapes the other backslash, not the quote.
   */
  lemma InputBackslashIsKept(a: string, q: char, b: string)
    requires Plain(a) && IsQuote(q) && Plain(b) && |a| + |b| + 3 <= MaxLength
    requires (a == [] || !IsSpace(a[0])) && (b == [] || !IsSpace(b[|b| - 1]))
    ensures CleanTextForJs(Some(a + ['\\', q] + b)) == a + ['\\', '\\', q] + b
  {
    var t := a + ['\\', q] + b;
    var c := a + ['\\', '\\', q] + b;
    assert Cleaned(t) == c by {
      var x := a + ['\\'];
      assert Plain(x);
      assert t == x + [q] + b;
      CleanedAroundQuote(x, q, b);
      assert c == x + ['\\', q] + b;
    }
    assert !IsSpace(c[0]) && !IsSpace(c[|c| - 1]) by {
      assert c[0] == (if a == [] then '\\' else a[0]);
      assert c[|c| - 1] == (if b == [] then q else b[|b| - 1]);
    }
    CleanTextIs(t, c);
  }
}
