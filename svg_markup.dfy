/**
 * The string surgery the icon systems do on an SVG file: the regular
 * expressions that find its `viewBox`, its inner content and its first
 * `<path>` tag, the templates that re-wrap the content with the kit's own
 * attributes, the placeholders shown when no SVG is available, and the
 * attribute rewriting of `renderIconOriginal`.
 *
 * Each regular expression is modelled as the leftmost match a backtracking
 * matcher finds: `[^x]*` runs up to the first `x`, and `[\s\S]*` followed by
 * `</svg>` reaches the last `</svg>`.
 */
module SvgMarkup {
  import opened Wrappers
  import opened Strings
  import opened IconCache

  // ---------------------------------------------------------------------------
  // Scanning

  /** The end of the run of characters other than `stop` that starts at `j`: `[^stop]*`. */
  function RunEnd(s: string, j: nat, stop: char): (k: nat)
    requires j <= |s|
    ensures j <= k <= |s|
    ensures forall m :: j <= m < k ==> s[m] != stop
    ensures k < |s| ==> s[k] == stop
    decreases |s| - j
  {
    if j == |s| || s[j] == stop then j else RunEnd(s, j + 1, stop)
  }

  lemma RunEndIs(s: string, j: nat, stop: char, k: nat)
    requires j <= k < |s| && s[k] == stop
    requires forall m :: j <= m < k ==> s[m] != stop
    ensures RunEnd(s, j, stop) == k
  {
  }

  /** `open[^"]*"` matches at `i` with at least `minLen` characters between `open` and the closing quote. */
  predicate QuotedAt(s: string, open: string, minLen: nat, i: int) {
    MatchAt(s, i, open) && var k := RunEnd(s, i + |open|, '"'); k < |s| && k - (i + |open|) >= minLen
  }

  /** The index of the quote that closes the value opened at `i`. */
  function CloseQuote(s: string, open: string, i: nat): nat
    requires MatchAt(s, i, open)
  {
    RunEnd(s, i + |open|, '"')
  }

  /** The leftmost match of `open[^"]{minLen,}"` at or after `from`. */
  function FindQuoted(s: string, open: string, minLen: nat, from: nat): (r: Option<nat>)
    ensures r.Some? ==> from <= r.value && QuotedAt(s, open, minLen, r.value)
    ensures r.Some? ==> forall j :: from <= j < r.value ==> !QuotedAt(s, open, minLen, j)
    ensures r.None? ==> forall j :: from <= j ==> !QuotedAt(s, open, minLen, j)
    decreases |s| - from
  {
    if from + |open| > |s| then None
    else if QuotedAt(s, open, minLen, from) then Some(from)
    else FindQuoted(s, open, minLen, from + 1)
  }

  const DefaultViewBox := "0 0 24 24"

  /** The value of the leftmost `open[^"]{minLen,}"` match: what the quotes enclose. */
  function QuotedValue(s: string, open: string, minLen: nat): (r: Option<string>)
    ensures r.None? ==> forall i :: !QuotedAt(s, open, minLen, i)
    ensures r.Some? ==> exists i: nat :: QuotedAt(s, open, minLen, i)
                                      && (forall j :: 0 <= j < i ==> !QuotedAt(s, open, minLen, j))
                                      && r.value == s[i + |open|..CloseQuote(s, open, i)]
    ensures r.Some? ==> |r.value| >= minLen && '"' !in r.value
  {
    match FindQuoted(s, open, minLen, 0)
    case None => None
    case Some(i) =>
      QuotedValueShape(s, open, minLen, i);
      Some(s[i + |open|..CloseQuote(s, open, i)])
  }

  /** What the quotes of a match enclose is at least `minLen` long and holds no quote. */
  lemma QuotedValueShape(s: string, open: string, minLen: nat, i: nat)
    requires QuotedAt(s, open, minLen, i)
    ensures var v := s[i + |open|..CloseQuote(s, open, i)]; |v| >= minLen && '"' !in v
  {
    var v := s[i + |open|..CloseQuote(s, open, i)];
    forall m | 0 <= m < |v| ensures v[m] != '"' {
      assert v[m] == s[i + |open| + m];
    }
  }

  /**
   * `svg.match(/viewBox="([^"]+)"/)` and its group: the non-empty, quote-free
   * value of the first `viewBox` attribute that has one.
   */
  function ViewBox(svg: string): (r: Option<string>)
    ensures r.Some? ==> r.value != [] && '"' !in r.value
    ensures r.Some? <==> exists i :: QuotedAt(svg, "viewBox=\"", 1, i)
    ensures r.Some? ==> exists i: nat :: QuotedAt(svg, "viewBox=\"", 1, i)
                                      && (forall j :: 0 <= j < i ==> !QuotedAt(svg, "viewBox=\"", 1, j))
                                      && r.value == svg[i + 9..CloseQuote(svg, "viewBox=\"", i)]
  {
    QuotedValue(svg, "viewBox=\"", 1)
  }

  /** `<svg[^>]*>([\s\S]*)<\/svg>` matches at `i`: an opening tag and, somewhere after it, a closing tag. */
  predicate SvgElementAt(s: string, i: int) {
    MatchAt(s, i, "<svg") && var g := RunEnd(s, i + 4, '>'); g < |s| && LastIndexOfFrom(s, "</svg>", g + 1).Some?
  }

  function FindSvgElement(s: string, from: nat): (r: Option<nat>)
    ensures r.Some? ==> from <= r.value && SvgElementAt(s, r.value)
    ensures r.Some? ==> forall j :: from <= j < r.value ==> !SvgElementAt(s, j)
    ensures r.None? ==> forall j :: from <= j ==> !SvgElementAt(s, j)
    decreases |s| - from
  {
    if from + 4 > |s| then None
    else if SvgElementAt(s, from) then Some(from)
    else FindSvgElement(s, from + 1)
  }

  /** The group of the `<svg>` match at `i`: from after the opening tag to the last `</svg>`. */
  function InnerAt(s: string, i: nat): string
    requires SvgElementAt(s, i)
  {
    var g := RunEnd(s, i + 4, '>');
    s[g + 1..LastIndexOfFrom(s, "</svg>", g + 1).value]
  }

  /** The group of `svg.match(/<svg[^>]*>([\s\S]*)<\/svg>/)`. */
  function SvgInner(s: string): (r: Option<string>)
    ensures r.Some? <==> exists i :: SvgElementAt(s, i)
    ensures r.Some? ==> exists i :: SvgElementAt(s, i) && (forall j :: 0 <= j < i ==> !SvgElementAt(s, j)) && r.value == InnerAt(s, i)
  {
    match FindSvgElement(s, 0)
    case None => None
    case Some(i) => Some(InnerAt(s, i))
  }

  /** `<path[^>]*>` matches at `i`. */
  predicate PathTagAt(s: string, i: int) {
    MatchAt(s, i, "<path") && RunEnd(s, i + 5, '>') < |s|
  }

  function FindPathTag(s: string, from: nat): (r: Option<nat>)
    ensures r.Some? ==> from <= r.value && PathTagAt(s, r.value)
    ensures r.Some? ==> forall j :: from <= j < r.value ==> !PathTagAt(s, j)
    ensures r.None? ==> forall j :: from <= j ==> !PathTagAt(s, j)
    decreases |s| - from
  {
    if from + 5 > |s| then None
    else if PathTagAt(s, from) then Some(from)
    else FindPathTag(s, from + 1)
  }

  /** `svg.match(/<path[^>]*>/)[0]`: the first `<path` tag through its first `>`. */
  function FirstPathTag(s: string): (r: Option<string>)
    ensures r.None? ==> forall i :: !PathTagAt(s, i)
    ensures r.Some? ==> exists i: nat :: PathTagAt(s, i) && (forall j :: 0 <= j < i ==> !PathTagAt(s, j))
                                      && r.value == PathTagText(s, i)
    ensures r.Some? ==> |r.value| >= 6 && r.value[..5] == "<path" && r.value[|r.value| - 1] == '>' && '>' !in r.value[..|r.value| - 1]
  {
    match FindPathTag(s, 0)
    case None => None
    case Some(i) =>
      PathTagShape(s, i);
      Some(PathTagText(s, i))
  }

  /** The text of the `<path[^>]*>` match at `i`. */
  function PathTagText(s: string, i: nat): string
    requires PathTagAt(s, i)
  {
    s[i..RunEnd(s, i + 5, '>') + 1]
  }

  /** The text of a `<path[^>]*>` match: `<path`, no `>` and a final `>`. */
  lemma PathTagShape(s: string, i: nat)
    requires PathTagAt(s, i)
    ensures var t := PathTagText(s, i);
            |t| >= 6 && t[..5] == "<path" && t[|t| - 1] == '>' && '>' !in t[..|t| - 1]
  {
    var k := RunEnd(s, i + 5, '>');
    var t := s[i..k + 1];
    assert t[..5] == s[i..i + 5];
    forall m | 0 <= m < |t| - 1 ensures t[m] != '>' {
      assert t[m] == s[i + m];
    }
  }

  // ---------------------------------------------------------------------------
  // Templates

  /** The three wrappers: v3 `renderIcon`, v2 `renderIcon` (also v1's), v2 `renderIconHighQuality`. */
  datatype Style = Plain | Stroked | HighQuality

  /** The start of the opening tag, up to the class name the caller passes. */
  function ClassPrefix(style: Style): string {
    "<svg" + " class=\"icon " + if style == HighQuality then "icon-high-quality " else ""
  }

  /** The attributes between the class value and `viewBox`. */
  function SizeAttrs(size: int): string {
    var n := IntToString(size);
    "\" width=\"" + n + "\" height=\"" + n + "\" "
  }

  const RoundCaps := " stroke-linecap=\"round\"" + " stroke-linejoin=\"round\""

  /** The presentation attributes each wrapper adds after `viewBox` (written in short pieces). */
  function Presentation(style: Style): string {
    match style
    case Plain => ""
    case Stroked => " fill=\"none\" stroke=\"currentColor\"" + " stroke-width=\"2\"" + RoundCaps
    case HighQuality =>
      " fill=\"currentColor\"" + " stroke=\"currentColor\"" + " stroke-width=\"1.5\"" + RoundCaps
      + " style=\"shape-rendering:" + " geometricPrecision;\""
  }

  /** The opening tag up to, not including, the `viewBox` attribute. */
  function TagHead(style: Style, cls: string, size: int): string {
    ClassPrefix(style) + cls + SizeAttrs(size)
  }

  /** The attributes from `viewBox` on and the closing `>` of the opening tag. */
  function TagTail(style: Style, viewBox: string): string {
    "viewBox=\"" + viewBox + "\"" + Presentation(style) + ">"
  }

  /** The kit's `<svg ...>…</svg>` around extracted content. */
  function Wrap(style: Style, cls: string, size: int, viewBox: string, inner: string): string {
    TagHead(style, cls, size) + TagTail(style, viewBox) + inner + "</svg>"
  }

  /** The placeholder `<div>` of the given pixel size, with `text` inside. */
  function PlaceholderDiv(cls: string, size: int, look: string, text: string): string {
    var n := IntToString(size);
    "<div class=\"icon-placeholder " + cls + "\" style=\"" + ("width: " + n + "px; height: " + n + "px;") + " " + look + "\">" + text + "</div>"
  }

  /** v3 `renderIcon`'s placeholder: a light box that shows the icon's name. */
  function NamedPlaceholder(cls: string, size: int, name: string): string {
    PlaceholderDiv(cls, size, "background: #f8f9fa; border: 1px solid #e9ecef; border-radius: 4px; display: flex; align-items: center; justify-content: center; font-size: 10px; color: #6c757d; font-weight: 500;", name)
  }

  /** The placeholder of every other renderer: a themed box with a question mark. */
  function GlyphPlaceholder(cls: string, size: int): string {
    PlaceholderDiv(cls, size, "background: var(--color-border-secondary); border-radius: 4px; display: flex; align-items: center; justify-content: center; font-size: 12px; color: var(--color-text-secondary);", "?")
  }

  /** The renderers that extract viewBox and content: what they make of a truthy SVG text. */
  function RenderSvg(style: Style, svg: string, size: int, cls: string): string {
    match SvgInner(svg)
    case Some(inner) => Wrap(style, cls, size, ViewBox(svg).GetOr(DefaultViewBox), inner)
    case None => svg
  }

  /** v3 `renderIcon` (`Plain`), v2 `renderIcon` (`Stroked`) and v2 `renderIconHighQuality` (`HighQuality`). */
  function RenderExtracted(style: Style, name: string, svg: Option<string>, size: int, cls: string): (r: string)
    ensures !Truthy(svg) && style == Plain ==> r == NamedPlaceholder(cls, size, name)
    ensures !Truthy(svg) && style != Plain ==> r == GlyphPlaceholder(cls, size)
    ensures Truthy(svg) && SvgInner(svg.value).None? ==> r == svg.value
    ensures Truthy(svg) && SvgInner(svg.value).Some? ==>
      r == Wrap(style, cls, size, ViewBox(svg.value).GetOr(DefaultViewBox), SvgInner(svg.value).value)
  {
    if !Truthy(svg) then
      if style == Plain then NamedPlaceholder(cls, size, name) else GlyphPlaceholder(cls, size)
    else RenderSvg(style, svg.value, size, cls)
  }

  /** v1 `renderIcon`: only the first `<path>` tag is kept, in the stroked 24x24 wrapper. */
  function RenderPath(svg: Option<string>, size: int, cls: string): (r: string)
    ensures !Truthy(svg) ==> r == GlyphPlaceholder(cls, size)
    ensures Truthy(svg) && FirstPathTag(svg.value).None? ==> r == svg.value
    ensures Truthy(svg) && FirstPathTag(svg.value).Some? ==>
      r == Wrap(Stroked, cls, size, DefaultViewBox, FirstPathTag(svg.value).value)
  {
    if !Truthy(svg) then GlyphPlaceholder(cls, size)
    else
      match FirstPathTag(svg.value)
      case Some(tag) => Wrap(Stroked, cls, size, DefaultViewBox, tag)
      case None => svg.value
  }

  // ---------------------------------------------------------------------------
  // Facts about the fixed text of the templates

  /** Free of the two characters that delimit tags. */
  predicate Tame(s: string) {
    '>' !in s && '<' !in s
  }

  lemma SvgOpenFacts()
    ensures var o := "<svg"; |o| == 4 && o[1] == 's' && '>' !in o && 'x' !in o && '<' !in o[1..]
  {
    assert "<svg"[1..] == "svg";
  }

  lemma ClassWordFacts()
    ensures Tame(" class=\"icon ") && 'x' !in " class=\"icon "
    ensures Tame("icon-high-quality ") && 'x' !in "icon-high-quality "
  {
  }

  lemma ClassPrefixFacts(style: Style)
    ensures var r := ClassPrefix(style);
            |r| > 4 && r[..4] == "<svg" && r[1] == 's' && '>' !in r && 'x' !in r && '<' !in r[1..]
  {
    var o := "<svg";
    var b := " class=\"icon ";
    var c := if style == HighQuality then "icon-high-quality " else "";
    var r := ClassPrefix(style);
    SvgOpenFacts();
    ClassWordFacts();
    assert r == o + b + c;
    ThreeParts(o, b, c);
    assert r[1] == r[..4][1];
    assert r[1..] == o[1..] + b + c;
  }

  lemma SizeAttrsFacts(size: int)
    ensures var r := SizeAttrs(size);
            |r| > 0 && r[0] == '"' && Tame(r) && 'x' !in r
  {
    var n := IntToString(size);
    assert 'x' !in n;
  }

  lemma RoundCapsTame()
    ensures Tame(RoundCaps)
  {
    assert Tame(" stroke-linecap=\"round\"");
    assert Tame(" stroke-linejoin=\"round\"");
  }

  lemma StrokedTame()
    ensures Tame(Presentation(Stroked))
  {
    RoundCapsTame();
    assert Tame(" fill=\"none\" stroke=\"currentColor\"");
    assert Tame(" stroke-width=\"2\"");
  }

  lemma HighQualityPaintTame()
    ensures Tame(" fill=\"currentColor\"" + " stroke=\"currentColor\"" + " stroke-width=\"1.5\"")
  {
    assert Tame(" fill=\"currentColor\"");
    assert Tame(" stroke=\"currentColor\"");
    assert Tame(" stroke-width=\"1.5\"");
  }

  lemma HighQualityStyleTame()
    ensures Tame(" style=\"shape-rendering:" + " geometricPrecision;\"")
  {
    assert Tame(" style=\"shape-rendering:");
    assert Tame(" geometricPrecision;\"");
  }

  lemma PresentationFacts(style: Style)
    ensures Tame(Presentation(style))
  {
    match style
    case Plain =>
    case Stroked => StrokedTame();
    case HighQuality =>
      RoundCapsTame();
      HighQualityPaintTame();
      HighQualityStyleTame();
  }

  /** The pieces of a text made of three parts. */
  lemma ThreeParts(x: string, y: string, z: string)
    ensures var w := x + y + z;
            w[..|x|] == x && w[|x|..|x| + |y|] == y && w[|x| + |y|..] == z
  {
  }

  /** No `x` is followed by `=` in `p + c + a` when neither `p` nor `a` holds an `x`, `c` holds no `=` and `a` does not start with one. */
  lemma NoXBeforeEq(p: string, c: string, a: string)
    requires 'x' !in p && '=' !in c && 'x' !in a && |a| > 0 && a[0] != '='
    ensures var h := p + c + a;
            forall j :: 0 <= j < |h| - 1 ==> h[j] != 'x' || h[j + 1] != '='
  {
    var h := p + c + a;
    ThreeParts(p, c, a);
    forall j | 0 <= j < |h| - 1 ensures h[j] != 'x' || h[j + 1] != '=' {
      if j < |p| {
        assert h[j] == h[..|p|][j];
      } else if j + 1 < |p| + |c| {
        assert h[j + 1] == h[|p|..|p| + |c|][j + 1 - |p|];
      } else if j + 1 == |p| + |c| {
        assert h[j + 1] == h[|p| + |c|..][0];
      } else {
        assert h[j] == h[|p| + |c|..][j - |p| - |c|];
      }
    }
  }

  /** The facts of an opening tag's head `p + c + a` that follow from those of its fixed parts. */
  lemma HeadParts(p: string, c: string, a: string)
    requires |p| > 4 && p[1] == 's' && '>' !in p && 'x' !in p && '<' !in p[1..]
    requires |a| > 0 && a[0] == '"' && Tame(a) && 'x' !in a
    ensures var h := p + c + a;
            |h| > 4 && h[..4] == p[..4] && h[1] == 's'
            && ('>' !in c ==> '>' !in h)
            && ('<' !in c ==> '<' !in h[1..])
            && ('=' !in c ==> forall j :: 0 <= j < |h| - 1 ==> h[j] != 'x' || h[j + 1] != '=')
  {
    var h := p + c + a;
    assert h[..4] == p[..4];
    assert h[1..] == p[1..] + c + a;
    if '=' !in c {
      NoXBeforeEq(p, c, a);
    }
  }

  /** What the round trips need to know about the head of the opening tag. */
  lemma TagHeadFacts(style: Style, cls: string, size: int)
    ensures var h := TagHead(style, cls, size);
            |h| > 4 && h[..4] == "<svg" && h[1] == 's'
            && ('>' !in cls ==> '>' !in h)
            && ('<' !in cls ==> '<' !in h[1..])
            && ('=' !in cls ==> forall j :: 0 <= j < |h| - 1 ==> h[j] != 'x' || h[j + 1] != '=')
  {
    ClassPrefixFacts(style);
    SizeAttrsFacts(size);
    HeadParts(ClassPrefix(style), cls, SizeAttrs(size));
  }

  /** The pieces of an opening tag's tail `v + vb + q + ">"`. */
  lemma TailParts(v: string, vb: string, q: string)
    requires |q| > 0
    ensures var t := v + vb + q + ">";
            |t| > |v| + |vb| && t[..|v|] == v && t[|v|..|v| + |vb|] == vb && t[|v| + |vb|] == q[0]
            && t[|t| - 1] == '>' && t[..|t| - 1] == v + vb + q
  {
    var t := v + vb + q + ">";
    assert t == v + vb + (q + ">");
    ThreeParts(v, vb, q + ">");
    assert t[|v| + |vb|] == t[|v| + |vb|..][0];
  }

  /** What the round trips need to know about the tail of the opening tag. */
  lemma TagTailFacts(style: Style, viewBox: string)
    ensures var t := TagTail(style, viewBox);
            |t| > 9 + |viewBox| && t[..9] == "viewBox=\"" && t[9..9 + |viewBox|] == viewBox && t[9 + |viewBox|] == '"'
            && t[|t| - 1] == '>'
            && ('>' !in viewBox ==> '>' !in t[..|t| - 1])
            && ('<' !in viewBox ==> '<' !in t)
  {
    var v := "viewBox=\"";
    var q := "\"" + Presentation(style);
    PresentationFacts(style);
    assert TagTail(style, viewBox) == v + viewBox + q + ">";
    TailParts(v, viewBox, q);
    ViewBoxOpenFacts();
    assert q == "\"" + Presentation(style);
  }

  lemma ViewBoxOpenFacts()
    ensures |"viewBox=\""| == 9 && Tame("viewBox=\"") && Tame("\"")
  {
  }

  lemma DefaultViewBoxFacts()
    ensures DefaultViewBox != [] && '"' !in DefaultViewBox && Tame(DefaultViewBox)
  {
  }

  lemma WrapNonEmpty(style: Style, cls: string, size: int, viewBox: string, inner: string)
    ensures Wrap(style, cls, size, viewBox, inner) != ""
  {
    assert |Wrap(style, cls, size, viewBox, inner)| >= |"</svg>"|;
  }

  // ---------------------------------------------------------------------------
  // Round trips through the templates

  lemma LastIsAtEnd(s: string, t: string, from: nat)
    requires from + |t| <= |s| && s[|s| - |t|..] == t
    ensures LastIndexOfFrom(s, t, from) == Some(|s| - |t|)
  {
    assert MatchAt(s, |s| - |t|, t);
  }

  /** The content between an opening tag `h + t` and a final `</svg>` is what the extraction finds. */
  lemma InnerOfTagged(h: string, t: string, inner: string)
    requires |h| >= 4 && h[..4] == "<svg" && '>' !in h
    requires |t| > 0 && t[|t| - 1] == '>' && '>' !in t[..|t| - 1]
    ensures SvgInner(h + t + inner + "</svg>") == Some(inner)
  {
    var s := h + t + inner + "</svg>";
    var g := |h| + |t| - 1;
    assert s[..4] == h[..4];
    forall m | 4 <= m < g ensures s[m] != '>' {
      if m < |h| {
        assert s[m] == h[m];
      } else {
        assert s[m] == t[..|t| - 1][m - |h|];
      }
    }
    assert s[g] == t[|t| - 1];
    RunEndIs(s, 4, '>', g);
    assert s[|s| - 6..] == "</svg>";
    LastIsAtEnd(s, "</svg>", g + 1);
    assert SvgElementAt(s, 0);
    assert s[g + 1..|s| - 6] == inner;
  }

  /**
   * Extraction inverts the wrapper: the content of a wrapped SVG is what was
   * wrapped, provided the class and viewBox contain no `>`.
   */
  lemma WrapInnerRoundTrip(style: Style, cls: string, size: int, viewBox: string, inner: string)
    requires '>' !in cls && '>' !in viewBox
    ensures SvgInner(Wrap(style, cls, size, viewBox, inner)) == Some(inner)
  {
    TagHeadFacts(style, cls, size);
    TagTailFacts(style, viewBox);
    InnerOfTagged(TagHead(style, cls, size), TagTail(style, viewBox), inner);
  }

  /** No `viewBox="` starts in a head `h` in which no `x` is followed by `=` and which a `viewBox="` follows. */
  lemma NoViewBoxIn(s: string, h: string)
    requires |h| + 9 <= |s| && s[..|h|] == h && s[|h|..|h| + 9] == "viewBox=\""
    requires forall j :: 0 <= j < |h| - 1 ==> h[j] != 'x' || h[j + 1] != '='
    ensures forall j :: 0 <= j < |h| ==> !QuotedAt(s, "viewBox=\"", 1, j)
  {
    var v := "viewBox=\"";
    var u := s[|h|..|h| + 9];
    forall j | 0 <= j < |h| ensures !MatchAt(s, j, v) {
      if j + 9 <= |s| {
        var w := s[j..j + 9];
        if j + 7 < |h| {
          assert w[6] == h[j + 6] && w[7] == h[j + 7];
        } else if j + 7 == |h| {
          assert w[7] == u[0];
        } else {
          assert w[6] == u[j + 6 - |h|];
        }
        assert w[6] != v[6] || w[7] != v[7];
      }
    }
  }

  /** A `viewBox="…"` with a non-empty, quote-free value at `k` matches there and closes after the value. */
  lemma ViewBoxAt(s: string, k: nat, viewBox: string)
    requires viewBox != [] && '"' !in viewBox
    requires k + 9 + |viewBox| < |s| && s[k..k + 9] == "viewBox=\"" && s[k + 9..k + 9 + |viewBox|] == viewBox
    requires s[k + 9 + |viewBox|] == '"'
    ensures QuotedAt(s, "viewBox=\"", 1, k) && CloseQuote(s, "viewBox=\"", k) == k + 9 + |viewBox|
  {
    forall m | k + 9 <= m < k + 9 + |viewBox| ensures s[m] != '"' {
      assert s[m] == viewBox[m - k - 9];
    }
    RunEndIs(s, k + 9, '"', k + 9 + |viewBox|);
  }

  /** The first `viewBox` of `s` is the one that follows the head `h`. */
  lemma ViewBoxIs(s: string, h: string, viewBox: string)
    requires forall j :: 0 <= j < |h| - 1 ==> h[j] != 'x' || h[j + 1] != '='
    requires viewBox != [] && '"' !in viewBox
    requires |h| + 9 + |viewBox| < |s| && s[..|h|] == h && s[|h|..|h| + 9] == "viewBox=\""
    requires s[|h| + 9..|h| + 9 + |viewBox|] == viewBox && s[|h| + 9 + |viewBox|] == '"'
    ensures ViewBox(s) == Some(viewBox)
  {
    NoViewBoxIn(s, h);
    ViewBoxAt(s, |h|, viewBox);
    FindQuotedIs(s, "viewBox=\"", 1, |h|);
    QuotedValueIs(s, "viewBox=\"", 1, |h|, viewBox);
    assert ViewBox(s) == QuotedValue(s, "viewBox=\"", 1);
  }

  /** The value is that of the match the search finds. */
  lemma QuotedValueIs(s: string, open: string, minLen: nat, i: nat, value: string)
    requires FindQuoted(s, open, minLen, 0) == Some(i)
    requires CloseQuote(s, open, i) == i + |open| + |value| && s[i + |open|..i + |open| + |value|] == value
    ensures QuotedValue(s, open, minLen) == Some(value)
  {
  }

  /** The search finds a match with no match before it. */
  lemma FindQuotedIs(s: string, open: string, minLen: nat, i: nat)
    requires QuotedAt(s, open, minLen, i) && forall j :: 0 <= j < i ==> !QuotedAt(s, open, minLen, j)
    ensures FindQuoted(s, open, minLen, 0) == Some(i)
  {
  }


  /** A `viewBox` attribute right after a head in which no `x` is followed by `=` is the first one. */
  lemma ViewBoxAfterHead(h: string, t: string, rest: string, viewBox: string)
    requires forall j :: 0 <= j < |h| - 1 ==> h[j] != 'x' || h[j + 1] != '='
    requires viewBox != [] && '"' !in viewBox
    requires |t| > 9 + |viewBox| && t[..9] == "viewBox=\"" && t[9..9 + |viewBox|] == viewBox && t[9 + |viewBox|] == '"'
    ensures ViewBox(h + t + rest) == Some(viewBox)
  {
    var s := h + t + rest;
    var k := |h|;
    ThreeParts(h, t, rest);
    assert s[k..k + 9] == t[..9] && s[k + 9..k + 9 + |viewBox|] == t[9..9 + |viewBox|] by {
      assert s[k..k + |t|] == t;
    }
    assert s[k + 9 + |viewBox|] == t[9 + |viewBox|];
    ViewBoxIs(s, h, viewBox);
  }

  /**
   * The wrapper's `viewBox` is the first one a later extraction finds, when
   * the class has no `=` and the viewBox is non-empty and quote-free.
   */
  lemma WrapViewBoxRoundTrip(style: Style, cls: string, size: int, viewBox: string, inner: string)
    requires '=' !in cls
    requires viewBox != [] && '"' !in viewBox
    ensures ViewBox(Wrap(style, cls, size, viewBox, inner)) == Some(viewBox)
  {
    var h := TagHead(style, cls, size);
    var t := TagTail(style, viewBox);
    TagHeadFacts(style, cls, size);
    TagTailFacts(style, viewBox);
    assert Wrap(style, cls, size, viewBox, inner) == h + t + (inner + "</svg>");
    ViewBoxAfterHead(h, t, inner + "</svg>", viewBox);
  }

  /**
   * Rendering an already rendered icon again with the same size and class
   * gives the same markup, for a class free of `>` and `=` and a viewBox
   * free of `>`.
   */
  lemma RenderSvgIdempotent(style: Style, svg: string, size: int, cls: string)
    requires SvgInner(svg).Some?
    requires '>' !in cls && '=' !in cls
    requires '>' !in ViewBox(svg).GetOr(DefaultViewBox)
    ensures RenderSvg(style, RenderSvg(style, svg, size, cls), size, cls) == RenderSvg(style, svg, size, cls)
  {
    var vb := ViewBox(svg).GetOr(DefaultViewBox);
    var inner := SvgInner(svg).value;
    DefaultViewBoxFacts();
    WrapInnerRoundTrip(style, cls, size, vb, inner);
    WrapViewBoxRoundTrip(style, cls, size, vb, inner);
  }

  /** No `<path` starts inside an opening tag whose only `<` is its first character and whose second is `s`. */
  lemma NoPathTagIn(o: string, u: string)
    requires |o| > 1 && o[1] == 's' && '<' !in o[1..]
    ensures forall j :: 0 <= j < |o| ==> !MatchAt(o + u, j, "<path")
  {
    var s := o + u;
    forall j | 0 <= j < |o| ensures !MatchAt(s, j, "<path") {
      if j + 5 <= |s| {
        if j == 0 {
          assert s[j..j + 5][1] == o[1] != "<path"[1];
        } else {
          assert s[j..j + 5][0] == o[1..][j - 1] != "<path"[0];
        }
      }
    }
  }

  /** A `<path…>` tag placed at `|o|` matches there and ends where it ends. */
  lemma PathTagPlaced(o: string, tag: string, rest: string)
    requires |tag| >= 6 && tag[..5] == "<path" && tag[|tag| - 1] == '>' && '>' !in tag[..|tag| - 1]
    ensures var s := o + tag + rest;
            PathTagAt(s, |o|) && RunEnd(s, |o| + 5, '>') == |o| + |tag| - 1 && s[|o|..|o| + |tag|] == tag
  {
    var s := o + tag + rest;
    var k := |o|;
    SliceOfMiddle(o, tag, rest);
    TagRunEnd(s, k, tag);
  }

  lemma SliceOfMiddle(o: string, t: string, rest: string)
    ensures (o + t + rest)[|o|..|o| + |t|] == t
  {
  }

  /** A `<path…>` tag found as the slice at `k`, with its only `>` at its end, is a match there. */
  lemma TagRunEnd(s: string, k: nat, tag: string)
    requires k + |tag| <= |s| && s[k..k + |tag|] == tag
    requires |tag| >= 6 && tag[..5] == "<path" && tag[|tag| - 1] == '>' && '>' !in tag[..|tag| - 1]
    ensures PathTagAt(s, k) && RunEnd(s, k + 5, '>') == k + |tag| - 1
  {
    var body := tag[..|tag| - 1];
    forall m | k + 5 <= m < k + |tag| - 1 ensures s[m] != '>' {
      assert s[m] == tag[m - k] == body[m - k];
    }
    assert s[k + |tag| - 1] == tag[|tag| - 1];
    RunEndIs(s, k + 5, '>', k + |tag| - 1);
    assert s[k..k + 5] == tag[..5];
  }

  /** The first `<path>` tag after an opening tag without a second `<` is the one that follows it. */
  lemma PathAfterTag(o: string, tag: string, rest: string)
    requires |o| > 1 && o[1] == 's' && '<' !in o[1..]
    requires |tag| >= 6 && tag[..5] == "<path" && tag[|tag| - 1] == '>' && '>' !in tag[..|tag| - 1]
    ensures FirstPathTag(o + tag + rest) == Some(tag)
  {
    var s := o + tag + rest;
    assert s == o + (tag + rest);
    NoPathTagIn(o, tag + rest);
    PathTagPlaced(o, tag, rest);
    assert forall j :: 0 <= j < |o| ==> !PathTagAt(s, j);
    assert FindPathTag(s, 0) == Some(|o|);
  }

  /**
   * The first `<path>` tag of v1's wrapper is the tag it wraps, when the class
   * has no `<`: `renderIcon` of v1 extracts exactly what it wrapped.
   */
  lemma WrapPathRoundTrip(cls: string, size: int, tag: string)
    requires '<' !in cls
    requires |tag| >= 6 && tag[..5] == "<path" && tag[|tag| - 1] == '>' && '>' !in tag[..|tag| - 1]
    ensures FirstPathTag(Wrap(Stroked, cls, size, DefaultViewBox, tag)) == Some(tag)
  {
    var h := TagHead(Stroked, cls, size);
    var t := TagTail(Stroked, DefaultViewBox);
    TagHeadFacts(Stroked, cls, size);
    DefaultViewBoxFacts();
    TagTailFacts(Stroked, DefaultViewBox);
    OpeningTagJoin(h, t);
    assert Wrap(Stroked, cls, size, DefaultViewBox, tag) == (h + t) + tag + "</svg>";
    PathAfterTag(h + t, tag, "</svg>");
  }

  lemma OpeningTagJoin(h: string, t: string)
    requires |h| > 1 && h[1] == 's' && '<' !in h[1..] && '<' !in t
    ensures var o := h + t; |o| > 1 && o[1] == 's' && '<' !in o[1..]
  {
    assert (h + t)[1..] == h[1..] + t;
  }

  /** v1's rendering is idempotent for a class free of `<`. */
  lemma RenderPathIdempotent(svg: string, size: int, cls: string)
    requires svg != "" && FirstPathTag(svg).Some? && '<' !in cls
    ensures RenderPath(Some(RenderPath(Some(svg), size, cls)), size, cls) == RenderPath(Some(svg), size, cls)
  {
    var tag := FirstPathTag(svg).value;
    WrapPathRoundTrip(cls, size, tag);
    WrapNonEmpty(Stroked, cls, size, DefaultViewBox, tag);
  }

  /** A placeholder is as large as asked and carries its text before the closing tag. */
  lemma PlaceholderShape(cls: string, size: int, look: string, text: string)
    ensures var r := PlaceholderDiv(cls, size, look, text);
            var n := IntToString(size);
            Contains(r, "width: " + n + "px; height: " + n + "px;") && r[|r| - |text| - 6..] == text + "</div>"
  {
    var n := IntToString(size);
    var r := PlaceholderDiv(cls, size, look, text);
    var pre := "<div class=\"icon-placeholder " + cls + "\" style=\"";
    var w := "width: " + n + "px; height: " + n + "px;";
    var tail := text + "</div>";
    var mid := " " + look + "\">";
    assert r == pre + w + (mid + tail);
    ThreeParts(pre, w, mid + tail);
    assert MatchAt(r, |pre|, w);
    assert r == (pre + w + mid) + tail;
    SuffixOf(pre + w + mid, tail);
  }

  lemma SuffixOf(x: string, y: string)
    ensures (x + y)[|x + y| - |y|..] == y
  {
  }

  // ---------------------------------------------------------------------------
  // renderIconOriginal

  /**
   * JavaScript's substitution patterns in a replacement string, for a regular
   * expression without groups: `$$`, `$&`, `` $` `` and `$'`; any other `$`
   * stays as it is.
   */
  function Expand(rep: string, matched: string, before: string, after: string): string
    decreases |rep|
  {
    if rep == [] then []
    else if rep[0] == '$' && |rep| >= 2 && rep[1] in "$&`'" then
      (match rep[1]
       case '$' => "$"
       case '&' => matched
       case '`' => before
       case _ => after) + Expand(rep[2..], matched, before, after)
    else [rep[0]] + Expand(rep[1..], matched, before, after)
  }

  /** A replacement without `$` is inserted as written. */
  lemma {:induction false} ExpandLiteral(rep: string, matched: string, before: string, after: string)
    requires '$' !in rep
    ensures Expand(rep, matched, before, after) == rep
    decreases |rep|
  {
    if rep != [] {
      assert rep[0] in rep;
      assert forall c :: c in rep[1..] ==> c in rep;
      ExpandLiteral(rep[1..], matched, before, after);
      assert rep == [rep[0]] + rep[1..];
    }
  }

  /** `$&` in a replacement stands for the matched text. */
  lemma ExpandMatched(matched: string, before: string, after: string)
    ensures Expand("$&", matched, before, after) == matched
  {
    assert "$&"[2..] == [];
  }

  /** `s.replace(/open[^"]*"/, rep)`: without a match the text is returned as it is. */
  function ReplaceQuoted(s: string, open: string, rep: string): (r: string)
    ensures FindQuoted(s, open, 0, 0).None? ==> r == s
  {
    match FindQuoted(s, open, 0, 0)
    case None => s
    case Some(i) =>
      var k := CloseQuote(s, open, i);
      s[..i] + Expand(rep, s[i..k + 1], s[..i], s[k + 1..]) + s[k + 1..]
  }

  /**
   * With a `$`-free replacement, exactly the leftmost `open…"` is replaced:
   * the text before it and after its closing quote is kept.
   */
  lemma ReplaceQuotedSpec(s: string, open: string, rep: string)
    requires '$' !in rep && FindQuoted(s, open, 0, 0).Some?
    ensures var i := FindQuoted(s, open, 0, 0).value;
            var k := CloseQuote(s, open, i);
            MatchAt(s, i, open) && i + |open| <= k < |s| && s[k] == '"'
            && (forall m :: i + |open| <= m < k ==> s[m] != '"')
            && (forall j :: 0 <= j < i ==> !QuotedAt(s, open, 0, j))
            && ReplaceQuoted(s, open, rep) == s[..i] + rep + s[k + 1..]
  {
    var i := FindQuoted(s, open, 0, 0).value;
    assert QuotedAt(s, open, 0, i);
    ReplaceQuotedLiteral(s, open, rep);
  }

  lemma ReplaceQuotedLiteral(s: string, open: string, rep: string)
    requires '$' !in rep && FindQuoted(s, open, 0, 0).Some?
    ensures var i := FindQuoted(s, open, 0, 0).value;
            ReplaceQuoted(s, open, rep) == s[..i] + rep + s[CloseQuote(s, open, i) + 1..]
  {
    var i := FindQuoted(s, open, 0, 0).value;
    var k := CloseQuote(s, open, i);
    ExpandLiteral(rep, s[i..k + 1], s[..i], s[k + 1..]);
  }

  /** `s.replace(/<svg/, rep)`: without a `<svg` the text is returned as it is. */
  function InsertAtSvg(s: string, rep: string): (r: string)
    ensures !Contains(s, "<svg") ==> r == s
  {
    match IndexOf(s, "<svg")
    case None => s
    case Some(i) => s[..i] + Expand(rep, "<svg", s[..i], s[i + 4..]) + s[i + 4..]
  }

  /** With a `$`-free replacement, the first `<svg` is replaced and everything else kept. */
  lemma InsertAtSvgSpec(s: string, rep: string)
    requires '$' !in rep && Contains(s, "<svg")
    ensures var i := IndexOf(s, "<svg").value;
            (forall j :: 0 <= j < i ==> !MatchAt(s, j, "<svg"))
            && InsertAtSvg(s, rep) == s[..i] + rep + s[i + 4..]
  {
    var i := IndexOf(s, "<svg").value;
    ExpandLiteral(rep, "<svg", s[..i], s[i + 4..]);
  }

  /** The class attribute `renderIconOriginal` writes. */
  function IconClass(cls: string): string {
    "class=\"icon " + cls + "\""
  }

  function RewriteAttributes(svg: string, size: int, cls: string): string {
    var n := IntToString(size);
    var w := ReplaceQuoted(svg, "width=\"", "width=\"" + n + "\"");
    var h := ReplaceQuoted(w, "height=\"", "height=\"" + n + "\"");
    var c := ReplaceQuoted(h, "class=\"", IconClass(cls));
    InsertAtSvg(c, "<svg " + IconClass(cls))
  }

  /** v3 `renderIconOriginal`: the fetched SVG with its first width, height and class rewritten and a class added. */
  function RenderOriginal(svg: Option<string>, size: int, cls: string): (r: string)
    ensures !Truthy(svg) ==> r == GlyphPlaceholder(cls, size)
    ensures Truthy(svg) ==> r == RewriteAttributes(svg.value, size, cls)
  {
    if !Truthy(svg) then GlyphPlaceholder(cls, size) else RewriteAttributes(svg.value, size, cls)
  }

  /**
   * An SVG without `width`, `height` or `class` attributes only gains the
   * kit's class right after its first `<svg`, when the class is free of `$`.
   */
  lemma RewriteBareSvg(svg: string, size: int, cls: string)
    requires forall j :: !QuotedAt(svg, "width=\"", 0, j)
    requires forall j :: !QuotedAt(svg, "height=\"", 0, j)
    requires forall j :: !QuotedAt(svg, "class=\"", 0, j)
    requires Contains(svg, "<svg") && '$' !in cls
    ensures var i := IndexOf(svg, "<svg").value;
            RewriteAttributes(svg, size, cls) == svg[..i] + "<svg " + IconClass(cls) + svg[i + 4..]
  {
    var n := IntToString(size);
    var w := ReplaceQuoted(svg, "width=\"", "width=\"" + n + "\"");
    assert w == svg by { assert FindQuoted(svg, "width=\"", 0, 0).None?; }
    var h := ReplaceQuoted(w, "height=\"", "height=\"" + n + "\"");
    assert h == svg by { assert FindQuoted(svg, "height=\"", 0, 0).None?; }
    var c := ReplaceQuoted(h, "class=\"", IconClass(cls));
    assert c == svg by { assert FindQuoted(svg, "class=\"", 0, 0).None?; }
    var r := "<svg " + IconClass(cls);
    assert '$' !in r;
    InsertAtSvgSpec(svg, r);
    assert RewriteAttributes(svg, size, cls) == InsertAtSvg(c, r);
  }

  /**
   * The width pattern has no word boundary: a `stroke-width="…"` that comes
   * first is the attribute that gets rewritten.
   */
  lemma StrokeWidthIsRewritten(s: string, i: nat)
    requires MatchAt(s, i, "stroke-width=\"") && RunEnd(s, i + 14, '"') < |s|
    ensures FindQuoted(s, "width=\"", 0, 0).Some? && FindQuoted(s, "width=\"", 0, 0).value <= i + 7
  {
    assert s[i + 7..i + 14] == s[i..i + 14][7..];
    assert QuotedAt(s, "width=\"", 0, i + 7);
  }
}
