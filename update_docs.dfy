/**
 * The documentation updater: the markdown-to-HTML rewrite chain, the
 * stripping of a rule file's frontmatter, the `.mdc` to `.html` renaming and
 * the loop that republishes the five project rule files, carrying on past
 * a file that fails.
 */
module UpdateDocs {
  import opened Wrappers
  import opened Strings

  /** `t` at index `i` of `s` puts `t[k]` at index `i + k`. */
  lemma MatchAtChar(s: string, i: int, t: string, k: nat)
    requires MatchAt(s, i, t) && k < |t|
    ensures s[i + k] == t[k]
  {
    assert s[i..i + |t|][k] == s[i + k];
  }

  /** No line terminator anywhere in `s`: what `.` may cover. */
  predicate SingleLine(s: string) {
    forall k :: 0 <= k < |s| ==> !IsLineTerminator(s[k])
  }

  // ---------------------------------------------------------------------------
  // Headings: `/^### (.*$)/gim` and the two rules after it

  /** The index of the first line terminator of `s`, or `|s|` when there is none. */
  function LineEnd(s: string): (e: nat)
    ensures e <= |s| && SingleLine(s[..e])
    ensures e < |s| ==> IsLineTerminator(s[e])
  {
    if s == [] || IsLineTerminator(s[0]) then 0
    else
      var e := 1 + LineEnd(s[1..]);
      assert s[..e] == [s[0]] + s[1..][..e - 1];
      e
  }

  /** A heading rule: the marker that opens the line and the element it becomes. */
  datatype Heading = Heading(marker: string, tag: string)

  const H3 := Heading("### ", "h3")
  const H2 := Heading("## ", "h2")
  const H1 := Heading("# ", "h1")

  /** The element `<tag>text</tag>`. */
  function Element(tag: string, text: string): string {
    "<" + tag + ">" + text + "</" + tag + ">"
  }

  /** One line under one heading rule. */
  function HeadingLine(line: string, h: Heading): string {
    if MatchAt(line, 0, h.marker) then Element(h.tag, line[|h.marker|..])
    else line
  }

  /** One heading rule over the whole text: `^` and `$` match at every line boundary. */
  function HeadingPass(s: string, h: Heading): string
    decreases |s|
  {
    var e := LineEnd(s);
    if e == |s| then HeadingLine(s, h)
    else HeadingLine(s[..e], h) + [s[e]] + HeadingPass(s[e + 1..], h)
  }

  /** The three heading rules, in the order the updater applies them. */
  function Headings(md: string): string {
    HeadingPass(HeadingPass(HeadingPass(md, H3), H2), H1)
  }

  /** What a single line becomes: `### ` is tried before `## ` and `## ` before `# `. */
  function HeadingOf(line: string): string {
    if MatchAt(line, 0, "### ") then Element("h3", line[4..])
    else if MatchAt(line, 0, "## ") then Element("h2", line[3..])
    else if MatchAt(line, 0, "# ") then Element("h1", line[2..])
    else line
  }

  lemma LineEndOf(line: string, t: char, rest: string)
    requires SingleLine(line) && IsLineTerminator(t)
    ensures LineEnd(line + [t] + rest) == |line|
  {
    var s := line + [t] + rest;
    var e := LineEnd(s);
    assert s[|line|] == t;
  }

  lemma SingleLineConcat(a: string, b: string)
    requires SingleLine(a) && SingleLine(b)
    ensures SingleLine(a + b)
  {
    forall k | 0 <= k < |a + b| ensures !IsLineTerminator((a + b)[k]) {
      if k < |a| {
        assert (a + b)[k] == a[k];
      } else {
        assert (a + b)[k] == b[k - |a|];
      }
    }
  }

  lemma TagPartsSingle()
    ensures SingleLine("<") && SingleLine(">") && SingleLine("</")
    ensures SingleLine("h1") && SingleLine("h2") && SingleLine("h3")
  {
  }

  /** An element of a single-line tag and text is a single line that starts with `<`. */
  lemma ElementSingle(tag: string, text: string)
    requires SingleLine(tag) && SingleLine(text)
    ensures SingleLine(Element(tag, text)) && Element(tag, text)[0] == '<'
  {
    TagPartsSingle();
    SingleLineConcat("<", tag);
    SingleLineConcat("<" + tag, ">");
    SingleLineConcat("<" + tag + ">", text);
    SingleLineConcat("<" + tag + ">" + text, "</");
    SingleLineConcat("<" + tag + ">" + text + "</", tag);
    SingleLineConcat("<" + tag + ">" + text + "</" + tag, ">");
  }

  lemma SingleLineSuffix(s: string, i: nat)
    requires SingleLine(s) && i <= |s|
    ensures SingleLine(s[i..])
  {
    forall k | 0 <= k < |s| - i ensures !IsLineTerminator(s[i..][k]) {
      assert s[i..][k] == s[i + k];
    }
  }

  lemma HeadingLineSingle(line: string, h: Heading)
    requires SingleLine(line) && h in {H1, H2, H3}
    ensures SingleLine(HeadingLine(line, h))
    ensures MatchAt(line, 0, h.marker) ==> HeadingLine(line, h)[0] == '<'
  {
    if MatchAt(line, 0, h.marker) {
      TagPartsSingle();
      SingleLineSuffix(line, |h.marker|);
      ElementSingle(h.tag, line[|h.marker|..]);
    }
  }

  /** A heading rule rewrites the first line and leaves the terminator and the following lines to itself. */
  lemma HeadingPassSplit(line: string, t: char, rest: string, h: Heading)
    requires SingleLine(line) && IsLineTerminator(t)
    ensures HeadingPass(line + [t] + rest, h) == HeadingLine(line, h) + [t] + HeadingPass(rest, h)
  {
    var s := line + [t] + rest;
    LineEndOf(line, t, rest);
    assert s[..|line|] == line && s[|line|] == t && s[|line| + 1..] == rest;
  }

  lemma HeadingPassLast(line: string, h: Heading)
    requires SingleLine(line)
    ensures HeadingPass(line, h) == HeadingLine(line, h)
  {
    assert line[..|line|] == line;
  }

  /** A line that does not start with `#` is left alone by every heading rule. */
  lemma HeadingLineUnmarked(line: string, h: Heading)
    requires h in {H1, H2, H3} && (line == [] || line[0] != '#')
    ensures HeadingLine(line, h) == line
  {
    if line != [] && MatchAt(line, 0, h.marker) {
      MatchAtChar(line, 0, h.marker, 0);
    }
  }

  /** The three rules one after the other on one line: `### ` is tried first, and a rewritten line starts with `<`. */
  lemma HeadingLinesInOrder(line: string)
    requires SingleLine(line)
    ensures HeadingLine(HeadingLine(HeadingLine(line, H3), H2), H1) == HeadingOf(line)
  {
    var a := HeadingLine(line, H3);
    HeadingLineSingle(line, H3);
    if MatchAt(line, 0, "### ") {
      HeadingLineUnmarked(a, H2);
      HeadingLineUnmarked(a, H1);
    } else {
      assert a == line;
      var b := HeadingLine(line, H2);
      HeadingLineSingle(line, H2);
      if MatchAt(line, 0, "## ") {
        HeadingLineUnmarked(b, H1);
      } else {
        assert b == line;
      }
    }
  }

  /** The three rules on a single line give that line's heading. */
  lemma HeadingsOfLine(line: string)
    requires SingleLine(line)
    ensures Headings(line) == HeadingOf(line)
  {
    HeadingPassLast(line, H3);
    var a := HeadingLine(line, H3);
    HeadingLineSingle(line, H3);
    HeadingPassLast(a, H2);
    var b := HeadingLine(a, H2);
    HeadingLineSingle(a, H2);
    HeadingPassLast(b, H1);
    HeadingLinesInOrder(line);
  }

  /**
   * The three rules act line by line: the first line becomes its heading and
   * the line terminator and everything after it are rewritten on their own.
   */
  lemma {:induction false} HeadingsPerLine(line: string, t: char, rest: string)
    requires SingleLine(line) && IsLineTerminator(t)
    ensures Headings(line + [t] + rest) == HeadingOf(line) + [t] + Headings(rest)
  {
    HeadingPassSplit(line, t, rest, H3);
    var a := HeadingLine(line, H3);
    HeadingLineSingle(line, H3);
    HeadingPassSplit(a, t, HeadingPass(rest, H3), H2);
    var b := HeadingLine(a, H2);
    HeadingLineSingle(a, H2);
    HeadingPassSplit(b, t, HeadingPass(HeadingPass(rest, H3), H2), H1);
    HeadingLinesInOrder(line);
  }

  // ---------------------------------------------------------------------------
  // Delimited spans: bold, italic, code fences and inline code

  /**
   * A delimited rule: the opening and closing marks, the markup that replaces
   * them, whether the inside may not cross a line terminator (`.`), and whether
   * it must not be empty (`[^`]+`).
   */
  datatype Span = Span(open: string, close: string, before: string, after: string, singleLine: bool, nonEmpty: bool)

  const Bold := Span("**", "**", "<strong>", "</strong>", true, false)
  const Italic := Span("*", "*", "<em>", "</em>", true, false)
  const Fence := Span("```", "```", "<pre><code>", "</code></pre>", false, false)
  const InlineCode := Span("`", "`", "<code>", "</code>", false, true)

  /**
   * The rule matches from index `i` with its closing mark at `j`: the shortest
   * inside allowed, so no closing mark sits between the two.
   */
  predicate ClosesAt(s: string, p: Span, i: nat, j: nat) {
    && MatchAt(s, i, p.open) && i + |p.open| <= j && MatchAt(s, j, p.close)
    && (forall k :: i + |p.open| <= k < j ==> !MatchAt(s, k, p.close))
    && (p.singleLine ==> forall k :: i + |p.open| <= k < j ==> !IsLineTerminator(s[k]))
    && (p.nonEmpty ==> i + |p.open| < j)
  }

  lemma ClosesAtUnique(s: string, p: Span, i: nat, j1: nat, j2: nat)
    requires ClosesAt(s, p, i, j1) && ClosesAt(s, p, i, j2)
    ensures j1 == j2
  {
  }

  /** Where the match of the rule that starts at `i` closes, if one starts there. */
  function CloseOf(s: string, p: Span, i: nat): (r: Option<nat>)
    ensures r.Some? ==> ClosesAt(s, p, i, r.value)
    ensures r.None? ==> forall j :: !ClosesAt(s, p, i, j)
  {
    if !MatchAt(s, i, p.open) then None
    else
      match IndexOfFrom(s, p.close, i + |p.open|)
      case None => None
      case Some(j) =>
        if (p.singleLine && exists k :: i + |p.open| <= k < j && IsLineTerminator(s[k]))
           || (p.nonEmpty && j == i + |p.open|)
        then None
        else Some(j)
  }

  /** The rule applied with the `g` flag: leftmost matches, each search resuming after the last match. */
  function SpanPass(s: string, p: Span): string
    requires |p.open| > 0
    decreases |s|
  {
    if s == [] then []
    else
      match CloseOf(s, p, 0)
      case Some(j) => p.before + s[|p.open|..j] + p.after + SpanPass(s[j + |p.close|..], p)
      case None => [s[0]] + SpanPass(s[1..], p)
  }

  /** Bold, italic, code fences and inline code, in the updater's order. */
  function Inline(s: string): string {
    SpanPass(SpanPass(SpanPass(SpanPass(s, Bold), Italic), Fence), InlineCode)
  }

  /** A prefix where no match can start is copied as it is. */
  lemma {:induction false} SpanPassSkip(s: string, p: Span, k: nat)
    requires |p.open| > 0 && k <= |s|
    requires forall i :: 0 <= i < k ==> !MatchAt(s, i, p.open)
    ensures SpanPass(s, p) == s[..k] + SpanPass(s[k..], p)
    decreases k
  {
    if k > 0 {
      assert CloseOf(s, p, 0).None?;
      forall i | 0 <= i < k - 1 ensures !MatchAt(s[1..], i, p.open) {
        assert !MatchAt(s, i + 1, p.open);
        if i + |p.open| <= |s| - 1 {
          assert s[1..][i..i + |p.open|] == s[i + 1..i + 1 + |p.open|];
        }
      }
      SpanPassSkip(s[1..], p, k - 1);
      assert s[..k] == [s[0]] + s[1..][..k - 1];
      assert s[1..][k - 1..] == s[k..];
    }
  }

  /** A text where no match can start is left unchanged. */
  lemma SpanPassNone(s: string, p: Span)
    requires |p.open| > 0
    requires forall i :: 0 <= i < |s| ==> !MatchAt(s, i, p.open)
    ensures SpanPass(s, p) == s
  {
    SpanPassSkip(s, p, |s|);
    assert s[..|s|] == s;
  }

  /** A text without the rule's first character is left unchanged. */
  lemma SpanPassWithout(s: string, p: Span)
    requires |p.open| > 0 && p.open[0] !in s
    ensures SpanPass(s, p) == s
  {
    forall i | 0 <= i < |s| ensures !MatchAt(s, i, p.open) {
      assert s[i] in s;
    }
    SpanPassNone(s, p);
  }

  /** A match at the start is replaced and the search resumes after it. */
  lemma SpanPassMatch(s: string, p: Span, j: nat)
    requires |p.open| > 0 && ClosesAt(s, p, 0, j)
    ensures SpanPass(s, p) == p.before + s[|p.open|..j] + p.after + SpanPass(s[j + |p.close|..], p)
  {
    ClosesAtUnique(s, p, 0, CloseOf(s, p, 0).value, j);
  }

  /** In `**x**` the bold match that starts at 0 closes at the second `**`. */
  lemma BoldClosesAfter(x: string)
    requires '*' !in x && SingleLine(x)
    ensures ClosesAt("**" + x + "**", Bold, 0, 2 + |x|)
  {
    var s := "**" + x + "**";
    forall k | 2 <= k < 2 + |x| ensures !MatchAt(s, k, "**") && !IsLineTerminator(s[k]) {
      assert s[k] == x[k - 2] && x[k - 2] in x;
    }
    assert MatchAt(s, 2 + |x|, "**");
  }

  /** `**x**` becomes `<strong>x</strong>`. */
  lemma BoldWraps(x: string)
    requires '*' !in x && SingleLine(x)
    ensures SpanPass("**" + x + "**", Bold) == "<strong>" + x + "</strong>"
  {
    var s := "**" + x + "**";
    BoldClosesAfter(x);
    SpanPassMatch(s, Bold, 2 + |x|);
    assert s[2..2 + |x|] == x && s[4 + |x|..] == [];
  }

  lemma StrongWithoutStar(x: string)
    requires '*' !in x
    ensures '*' !in "<strong>" + x + "</strong>"
  {
    assert '*' !in "<strong>" && '*' !in "</strong>";
  }

  /** `**x**` becomes `<strong>x</strong>`, and the italic rule then finds nothing left to do. */
  lemma BoldBeforeItalic(x: string)
    requires '*' !in x && SingleLine(x)
    ensures SpanPass(SpanPass("**" + x + "**", Bold), Italic) == "<strong>" + x + "</strong>"
  {
    BoldWraps(x);
    StrongWithoutStar(x);
    SpanPassWithout("<strong>" + x + "</strong>", Italic);
  }

  /**
   * A rule whose two marks are the one character `c` wraps `c x c` when `x`
   * lacks `c` (and has no line terminator, or is not empty, where the rule
   * asks for it), then goes on with the rest.
   */
  lemma SpanPassWrap(p: Span, c: char, x: string, rest: string)
    requires p.open == [c] && p.close == [c] && c !in x
    requires p.singleLine ==> SingleLine(x)
    requires p.nonEmpty ==> x != []
    ensures SpanPass([c] + x + [c] + rest, p) == p.before + x + p.after + SpanPass(rest, p)
  {
    var s := [c] + x + [c] + rest;
    forall k | 1 <= k < 1 + |x| ensures s[k] == x[k - 1] && !MatchAt(s, k, [c]) {
      assert s[k] == x[k - 1] && x[k - 1] in x;
      assert s[k..k + 1] == [s[k]];
    }
    assert s[1 + |x|..2 + |x|] == [c];
    assert ClosesAt(s, p, 0, 1 + |x|);
    SpanPassMatch(s, p, 1 + |x|);
    assert s[1..1 + |x|] == x && s[2 + |x|..] == rest;
  }

  /** The bold rule finds no `**` in `*x*`. */
  lemma BoldSkipsLoneStars(x: string)
    requires '*' !in x
    ensures SpanPass("*" + x + "*", Bold) == "*" + x + "*"
  {
    var s := "*" + x + "*";
    if x == [] {
      assert CloseOf(s, Bold, 0).None?;
      assert s[1..] == "*";
      assert CloseOf("*", Bold, 0).None?;
    } else {
      forall i | 0 <= i < |s| ensures !MatchAt(s, i, "**") {
        assert s[1] == x[0] && x[0] in x;
        if 1 <= i <= |x| {
          assert s[i] == x[i - 1] && x[i - 1] in x;
        }
      }
      SpanPassNone(s, Bold);
    }
  }

  /** `*x*` passes the bold rule untouched and becomes `<em>x</em>`. */
  lemma ItalicAfterBold(x: string)
    requires '*' !in x && SingleLine(x)
    ensures SpanPass(SpanPass("*" + x + "*", Bold), Italic) == "<em>" + x + "</em>"
  {
    BoldSkipsLoneStars(x);
    assert "*" + x + "*" == ['*'] + x + ['*'] + "";
    SpanPassWrap(Italic, '*', x, "");
  }

  /** The bold rule finds no `**` in `` `*x*` ``. */
  lemma CodeEmphasisBold(x: string)
    requires x != [] && '*' !in x
    ensures SpanPass("`*" + x + "*`", Bold) == "`*" + x + "*`"
  {
    var s := "`*" + x + "*`";
    forall i | 0 <= i < |s| ensures !MatchAt(s, i, "**") {
      assert s[0] == '`' && s[2] == x[0] && x[0] in x && s[|x| + 3] == '`';
      if 2 <= i < 2 + |x| {
        assert s[i] == x[i - 2] && x[i - 2] in x;
      }
    }
    SpanPassNone(s, Bold);
  }

  /** A character that cannot open a match is copied and the search goes on after it. */
  lemma SpanPassCons(p: Span, d: char, t: string)
    requires |p.open| > 0 && d != p.open[0]
    ensures SpanPass([d] + t, p) == [d] + SpanPass(t, p)
  {
    var s := [d] + t;
    assert s[0] != p.open[0];
    assert CloseOf(s, p, 0).None?;
    assert s[1..] == t;
  }

  /** The italic rule wraps the inside of `` `*x*` ``. */
  lemma CodeEmphasisItalic(x: string, m: string)
    requires x != [] && '*' !in x && SingleLine(x) && m == "<em>" + x + "</em>"
    ensures SpanPass("`*" + x + "*`", Italic) == "`" + m + "`"
  {
    var t := ['*'] + x + ['*'] + "`";
    assert SpanPass("`*" + x + "*`", Italic) == ['`'] + SpanPass(t, Italic) by {
      assert "`*" + x + "*`" == ['`'] + t;
      SpanPassCons(Italic, '`', t);
    }
    assert SpanPass(t, Italic) == m + "`" by {
      SpanPassWrap(Italic, '*', x, "`");
      SpanPassWithout("`", Italic);
    }
    assert ['`'] + (m + "`") == "`" + m + "`";
  }

  /** Backticks around a text without backticks: no fence, one inline code span. */
  lemma CodeEmphasisCode(m: string)
    requires m != [] && '`' !in m
    ensures SpanPass(SpanPass("`" + m + "`", Fence), InlineCode) == "<code>" + m + "</code>"
  {
    var e := "`" + m + "`";
    forall i | 0 <= i < |e| ensures !MatchAt(e, i, "```") {
      if i < |m| {
        assert e[i + 1] == m[i] && m[i] in m;
      }
    }
    SpanPassNone(e, Fence);
    assert e == ['`'] + m + ['`'] + "";
    SpanPassWrap(InlineCode, '`', m, "");
  }

  lemma EmphasisInCode(x: string, m: string)
    requires '`' !in x && m == "<em>" + x + "</em>"
    ensures m != [] && '`' !in m
    ensures "<code>" + m + "</code>" == "<code><em>" + x + "</em></code>"
  {
    assert '`' !in "<em>" && '`' !in "</em>";
  }

  /**
   * The code rules run after the emphasis rules, so asterisks inside inline
   * code have already become `<em>` by the time the code is wrapped.
   */
  lemma CodeAfterEmphasis(x: string)
    requires x != [] && '*' !in x && '`' !in x && SingleLine(x)
    ensures Inline("`*" + x + "*`") == "<code><em>" + x + "</em></code>"
  {
    var m := "<em>" + x + "</em>";
    CodeEmphasisBold(x);
    CodeEmphasisItalic(x, m);
    EmphasisInCode(x, m);
    CodeEmphasisCode(m);
  }

  // ---------------------------------------------------------------------------
  // Paragraphs and the final clean-up

  /** `/\n\n/g` replaced by a paragraph break. */
  function Paragraphs(s: string): string {
    ReplaceAll(s, "\n\n", "</p>\n<p>")
  }

  /** No two newlines in a row. */
  predicate NoBlankLine(s: string) {
    forall i :: 0 <= i < |s| - 1 ==> !(s[i] == '\n' && s[i + 1] == '\n')
  }

  lemma NoBlankLineConcat(a: string, b: string)
    requires NoBlankLine(a) && NoBlankLine(b)
    requires a != [] && b != [] ==> !(a[|a| - 1] == '\n' && b[0] == '\n')
    ensures NoBlankLine(a + b)
  {
    var s := a + b;
    forall i | 0 <= i < |s| - 1 ensures !(s[i] == '\n' && s[i + 1] == '\n') {
      if i + 1 < |a| {
        assert s[i] == a[i] && s[i + 1] == a[i + 1];
      } else if i >= |a| {
        assert s[i] == b[i - |a|] && s[i + 1] == b[i + 1 - |a|];
      } else {
        assert s[i] == a[|a| - 1] && s[i + 1] == b[0];
      }
    }
  }

  lemma NoBlankLineSlice(s: string, a: nat, b: nat)
    requires NoBlankLine(s) && a <= b <= |s|
    ensures NoBlankLine(s[a..b])
  {
    var t := s[a..b];
    forall i | 0 <= i < |t| - 1 ensures !(t[i] == '\n' && t[i + 1] == '\n') {
      assert t[i] == s[a + i] && t[i + 1] == s[a + i + 1];
    }
  }

  /**
   * After the paragraph rule no two newlines remain in a row; the output
   * starts with a newline only where the input has a single one.
   */
  lemma {:induction false} ParagraphsNoBlankLine(s: string)
    ensures NoBlankLine(Paragraphs(s))
    ensures Paragraphs(s) != [] && Paragraphs(s)[0] == '\n' ==>
      s != [] && s[0] == '\n' && (|s| == 1 || s[1] != '\n')
    decreases |s|
  {
    var rep := "</p>\n<p>";
    if |s| < 2 {
    } else if s[..2] == "\n\n" {
      ParagraphsNoBlankLine(s[2..]);
      assert NoBlankLine(rep);
      NoBlankLineConcat(rep, Paragraphs(s[2..]));
      assert Paragraphs(s) == rep + Paragraphs(s[2..]);
    } else {
      ParagraphsNoBlankLine(s[1..]);
      var rest := Paragraphs(s[1..]);
      assert s[1..][0] == s[1];
      NoBlankLineConcat([s[0]], rest);
      assert Paragraphs(s) == [s[0]] + rest;
    }
  }

  /** `/^<p>/`: without the `m` flag only the very start of the text. */
  function StripLeadingParagraph(s: string): (r: string)
    ensures MatchAt(s, 0, "<p>") ==> "<p>" + r == s
    ensures !MatchAt(s, 0, "<p>") ==> r == s
  {
    if MatchAt(s, 0, "<p>") then s[3..] else s
  }

  /** `/<\/p>$/`: without the `m` flag only the very end of the text. */
  function StripTrailingParagraph(s: string): (r: string)
    ensures MatchAt(s, |s| - 4, "</p>") ==> r + "</p>" == s
    ensures !MatchAt(s, |s| - 4, "</p>") ==> r == s
  {
    if MatchAt(s, |s| - 4, "</p>") then s[..|s| - 4] else s
  }

  /** `markdownToHtml`: the eleven replacements in order, the last one rewriting the paragraph break to itself. */
  function MarkdownToHtml(md: string): string {
    var body := Paragraphs(Inline(Headings(md)));
    ReplaceAll(StripTrailingParagraph(StripLeadingParagraph(body)), "</p>\n<p>", "</p>\n<p>")
  }

  /**
   * The HTML is the paragraph-broken text with at most one leading `<p>` and
   * one trailing `</p>` removed (the last replacement changes nothing), and it
   * has no two newlines in a row.
   */
  lemma MarkdownToHtmlSpec(md: string)
    ensures var body := Paragraphs(Inline(Headings(md)));
      MarkdownToHtml(md) == StripTrailingParagraph(StripLeadingParagraph(body))
    ensures NoBlankLine(MarkdownToHtml(md))
  {
    var body := Paragraphs(Inline(Headings(md)));
    ParagraphsNoBlankLine(Inline(Headings(md)));
    var lead := StripLeadingParagraph(body);
    NoBlankLineSlice(body, |body| - |lead|, |body|);
    assert lead == body[|body| - |lead|..];
    var trail := StripTrailingParagraph(lead);
    NoBlankLineSlice(lead, 0, |trail|);
    assert trail == lead[..|trail|];
    ReplaceAllSelf(trail, "</p>\n<p>");
  }

  // ---------------------------------------------------------------------------
  // Frontmatter

  /** The first `n` characters of `s` are `---`, anything, then `---` and a newline. */
  predicate FrontmatterOf(s: string, n: nat) {
    7 <= n <= |s| && MatchAt(s, 0, "---") && MatchAt(s, n - 4, "---\n")
  }

  /** The length of the shortest frontmatter at the start of `s`, or 0 when there is none. */
  function FrontmatterLength(s: string): (n: nat)
    ensures n <= |s|
    ensures n > 0 ==> FrontmatterOf(s, n) && forall m: nat :: m < n ==> !FrontmatterOf(s, m)
    ensures n == 0 ==> forall m: nat :: !FrontmatterOf(s, m)
  {
    if !MatchAt(s, 0, "---") then 0
    else
      match IndexOfFrom(s, "---\n", 3)
      case None => 0
      case Some(j) => j + 4
  }

  /** `/^---[\s\S]*?---\n/` replaced by nothing. */
  function StripFrontmatter(s: string): (r: string)
    ensures |r| == |s| - FrontmatterLength(s) && s[..FrontmatterLength(s)] + r == s
  {
    s[FrontmatterLength(s)..]
  }

  // ---------------------------------------------------------------------------
  // The rule files

  /** The name a page is written under: the first `.mdc` becomes `.html`. */
  function OutputName(file: string): string {
    ReplaceFirst(file, ".mdc", ".html")
  }

  /** A name ending in its only `.mdc` keeps its stem and ends in `.html`. */
  lemma OutputNameOf(stem: string)
    requires !Contains(stem, ".mdc")
    ensures OutputName(stem + ".mdc") == stem + ".html"
  {
    var s := stem + ".mdc";
    assert MatchAt(s, |stem|, ".mdc");
    var i := IndexOf(s, ".mdc").value;
    if i < |stem| {
      if i + 4 <= |stem| {
        assert s[i..i + 4] == stem[i..i + 4];
        assert MatchAt(stem, i, ".mdc");
      } else {
        MatchAtChar(s, i, ".mdc", |stem| - i);
      }
    }
    assert i == |stem|;
    assert s[..i] == stem && s[i + 4..] == [];
  }

  /** One entry of `rulesFiles`. */
  datatype RuleFile = RuleFile(file: string, title: string)

  const RuleFiles: seq<RuleFile> := [
    RuleFile("project-overview.mdc", "Project Overview"),
    RuleFile("development-workflow.mdc", "Development Workflow"),
    RuleFile("technical-standards.mdc", "Technical Standards"),
    RuleFile("git-workflow.mdc", "Git Workflow"),
    RuleFile("ui-kit-guidelines.mdc", "UI Kit Guidelines")
  ]

  /** The file names without their `.mdc` extension. */
  const RuleStems: seq<string> := ["project-overview", "development-workflow", "technical-standards", "git-workflow", "ui-kit-guidelines"]

  lemma RuleFileStems()
    ensures |RuleFiles| == |RuleStems| == 5
    ensures forall i :: 0 <= i < 5 ==> RuleFiles[i].file == RuleStems[i] + ".mdc"
  {
  }

  lemma RuleStemsDistinct()
    ensures |RuleStems| == 5
    ensures forall i :: 0 <= i < 5 ==> RuleStems[i] != [] && '.' !in RuleStems[i]
    ensures forall i, j :: 0 <= i < j < 5 ==> RuleStems[i][0] != RuleStems[j][0]
  {
  }

  /** Files named by stems without dots and with different first letters get different page names. */
  lemma OutputNamesFromStems(rules: seq<RuleFile>, stems: seq<string>)
    requires |rules| == |stems|
    requires forall i :: 0 <= i < |rules| ==> rules[i].file == stems[i] + ".mdc" && '.' !in stems[i]
    requires forall i :: 0 <= i < |stems| ==> stems[i] != []
    requires forall i, j :: 0 <= i < j < |stems| ==> stems[i][0] != stems[j][0]
    ensures forall i :: 0 <= i < |rules| ==> OutputName(rules[i].file) == stems[i] + ".html"
    ensures forall i, j :: 0 <= i < j < |rules| ==> OutputName(rules[i].file) != OutputName(rules[j].file)
  {
    forall i | 0 <= i < |rules| ensures OutputName(rules[i].file) == stems[i] + ".html" {
      RuleOutputName(stems[i]);
    }
    forall i, j | 0 <= i < j < |rules| ensures OutputName(rules[i].file) != OutputName(rules[j].file) {
      assert (stems[i] + ".html")[0] == stems[i][0];
      assert (stems[j] + ".html")[0] == stems[j][0];
    }
  }

  /** Each page is written under its stem and `.html`, so the five names are different. */
  lemma RuleOutputNames()
    ensures forall i :: 0 <= i < |RuleFiles| ==> OutputName(RuleFiles[i].file) == RuleStems[i] + ".html"
    ensures forall i, j :: 0 <= i < j < |RuleFiles| ==> OutputName(RuleFiles[i].file) != OutputName(RuleFiles[j].file)
  {
    RuleFileStems();
    RuleStemsDistinct();
    OutputNamesFromStems(RuleFiles, RuleStems);
  }

  /** A stem without a dot gets its `.html` name. */
  lemma RuleOutputName(stem: string)
    requires '.' !in stem
    ensures OutputName(stem + ".mdc") == stem + ".html"
  {
    NotContainsMissingChar(stem, ".mdc", 0);
    OutputNameOf(stem);
  }

  /** `createHtmlFromMarkdown`'s inputs: the page around the converted body. */
  datatype Page = Page(title: string, body: string, source: string)

  /** The page written for a rule file with the given content. */
  function PageFor(rule: RuleFile, content: string): Page {
    Page(rule.title, MarkdownToHtml(StripFrontmatter(content)), rule.file)
  }

  /** A rule is republished when its file exists and neither reading nor writing it fails. */
  predicate Republished(rule: RuleFile, dir: map<string, string>, failing: set<string>) {
    rule.file in dir && rule.file !in failing
  }

  /** The docs folder after the rules are processed in order. */
  function Published(pages: map<string, Page>, rules: seq<RuleFile>, dir: map<string, string>, failing: set<string>): map<string, Page>
    decreases |rules|
  {
    if rules == [] then pages
    else
      var before := Published(pages, rules[..|rules| - 1], dir, failing);
      var rule := rules[|rules| - 1];
      if Republished(rule, dir, failing) then before[OutputName(rule.file) := PageFor(rule, dir[rule.file])]
      else before
  }

  /** The files whose update logged an error, in order. */
  function Failures(rules: seq<RuleFile>, dir: map<string, string>, failing: set<string>): (r: seq<string>)
    decreases |rules|
    ensures forall f :: f in r <==> exists i :: 0 <= i < |rules| && rules[i].file == f && f in dir && f in failing
  {
    if rules == [] then []
    else
      var rule := rules[|rules| - 1];
      var before := Failures(rules[..|rules| - 1], dir, failing);
      assert forall i :: 0 <= i < |rules| - 1 ==> rules[..|rules| - 1][i] == rules[i];
      if rule.file in dir && rule.file in failing then before + [rule.file] else before
  }

  /**
   * Every rule that can be republished is, whatever happened to the rules
   * before and after it, as long as no two rules share a page name.
   */
  lemma {:induction false} PublishedSpec(pages: map<string, Page>, rules: seq<RuleFile>, dir: map<string, string>, failing: set<string>)
    requires forall i, j :: 0 <= i < j < |rules| ==> OutputName(rules[i].file) != OutputName(rules[j].file)
    ensures forall i :: 0 <= i < |rules| && Republished(rules[i], dir, failing) ==>
      && OutputName(rules[i].file) in Published(pages, rules, dir, failing)
      && Published(pages, rules, dir, failing)[OutputName(rules[i].file)] == PageFor(rules[i], dir[rules[i].file])
    decreases |rules|
  {
    if rules != [] {
      var init := rules[..|rules| - 1];
      PublishedSpec(pages, init, dir, failing);
      var before := Published(pages, init, dir, failing);
      var last := rules[|rules| - 1];
      forall i | 0 <= i < |rules| - 1 && Republished(rules[i], dir, failing)
        ensures OutputName(rules[i].file) in Published(pages, rules, dir, failing)
        ensures Published(pages, rules, dir, failing)[OutputName(rules[i].file)] == PageFor(rules[i], dir[rules[i].file])
      {
        assert init[i] == rules[i];
        assert OutputName(rules[i].file) != OutputName(last.file);
      }
    }
  }

  /** The folder gains exactly the page names of the rules that were republished. */
  lemma {:induction false} PublishedNames(pages: map<string, Page>, rules: seq<RuleFile>, dir: map<string, string>, failing: set<string>)
    ensures forall name :: name in Published(pages, rules, dir, failing) <==>
      name in pages || exists i :: 0 <= i < |rules| && Republished(rules[i], dir, failing) && OutputName(rules[i].file) == name
    decreases |rules|
  {
    if rules != [] {
      var init := rules[..|rules| - 1];
      assert forall i :: 0 <= i < |init| ==> init[i] == rules[i];
      PublishedNames(pages, init, dir, failing);
    }
  }

  /** A page that no republished rule names stays as it was. */
  lemma {:induction false} PublishedKeeps(pages: map<string, Page>, rules: seq<RuleFile>, dir: map<string, string>, failing: set<string>, name: string)
    requires name in pages
    requires forall i :: 0 <= i < |rules| && Republished(rules[i], dir, failing) ==> OutputName(rules[i].file) != name
    ensures name in Published(pages, rules, dir, failing) && Published(pages, rules, dir, failing)[name] == pages[name]
    decreases |rules|
  {
    if rules != [] {
      var init := rules[..|rules| - 1];
      assert forall i :: 0 <= i < |init| ==> init[i] == rules[i];
      PublishedKeeps(pages, init, dir, failing, name);
    }
  }

  /** The `docs` folder the pages are written to. */
  class DocsFolder {
    var pages: map<string, Page>

    constructor (initial: map<string, Page>)
      ensures pages == initial
    {
      pages := initial;
    }

    /**
     * `updateRulesHtml`: `dir` holds the rule files that exist, and `failing`
     * those whose reading or writing throws; such a file is logged and the
     * loop goes on with the next one.
     */
    method UpdateRulesHtml(dir: map<string, string>, failing: set<string>) returns (errors: seq<string>)
      modifies this
      ensures pages == Published(old(pages), RuleFiles, dir, failing)
      ensures errors == Failures(RuleFiles, dir, failing)
    {
      errors := [];
      var k := 0;
      while k < |RuleFiles|
        invariant 0 <= k <= |RuleFiles|
        invariant pages == Published(old(pages), RuleFiles[..k], dir, failing)
        invariant errors == Failures(RuleFiles[..k], dir, failing)
      {
        var rule := RuleFiles[k];
        assert RuleFiles[..k + 1][..k] == RuleFiles[..k];
        if rule.file in dir {
          if rule.file in failing {
            errors := errors + [rule.file];
          } else {
            var body := MarkdownToHtml(StripFrontmatter(dir[rule.file]));
            pages := pages[OutputName(rule.file) := Page(rule.title, body, rule.file)];
          }
        }
        k := k + 1;
      }
      assert RuleFiles[..k] == RuleFiles;
    }
  }

  /** Each of the five rules that can be republished is, under its own `.html` name. */
  lemma RulesPublished(pages: map<string, Page>, dir: map<string, string>, failing: set<string>)
    ensures forall i :: 0 <= i < |RuleFiles| && Republished(RuleFiles[i], dir, failing) ==>
      && OutputName(RuleFiles[i].file) in Published(pages, RuleFiles, dir, failing)
      && Published(pages, RuleFiles, dir, failing)[OutputName(RuleFiles[i].file)] == PageFor(RuleFiles[i], dir[RuleFiles[i].file])
  {
    RuleOutputNames();
    PublishedSpec(pages, RuleFiles, dir, failing);
  }
}
