/**
 * The button builder of the UI kit page: `parseButtonRequest` turns a free
 * text request (in Russian or English) into a button configuration, and
 * `createButtonWithIcon` decides from that configuration what kind of button
 * to build.
 */
module ButtonRequest {
  import opened Wrappers
  import opened Strings
  import opened KeywordRules

  // ---------------------------------------------------------------------------
  // Style and size

  /** The style groups in the order they are tested; the result is the style's name. */
  const StyleRules: seq<Rule> := [
    Rule(["первого", "главная", "action"], "action"),
    Rule(["второго", "вторичная", "fill"], "fill"),
    Rule(["третьего", "третичная", "обводка", "outline"], "outline"),
    Rule(["четвертого", "четверичная", "blank"], "blank")
  ]

  const Styles: set<string> := {"action", "fill", "outline", "blank"}

  /** The style of the first group with a keyword in the request, `action` when none has one. */
  function StyleOf(req: string): (style: string)
    ensures style in Styles
    ensures FirstMatch(StyleRules, req) < |StyleRules| ==> style == StyleRules[FirstMatch(StyleRules, req)].result
    ensures FirstMatch(StyleRules, req) == |StyleRules| ==> style == "action"
  {
    var i := FirstMatch(StyleRules, req);
    if i < |StyleRules| then StyleRules[i].result else "action"
  }

  /** A request that names the outline style and neither of the first two groups gets the outline style. */
  lemma OutlineStyle(req: string)
    requires Contains(req, "outline")
    requires !RuleMatches(StyleRules[0], req) && !RuleMatches(StyleRules[1], req)
    ensures StyleOf(req) == "outline"
  {
    assert "outline" in StyleRules[2].keys;
    FirstMatchIs(StyleRules, req, 2);
  }

  /** Small when the request says so, the 40-pixel size otherwise. */
  function SizeOf(req: string): (size: int)
    ensures size == 32 || size == 40
    ensures size == 32 <==> Contains(req, "32") || Contains(req, "маленьк") || Contains(req, "мелк")
  {
    if Contains(req, "32") || Contains(req, "маленьк") || Contains(req, "мелк") then 32 else 40
  }

  // ---------------------------------------------------------------------------
  // The quoted button text: /текст[ом]*\s*["']([^"']+)["']/

  predicate IsQuote(c: char) {
    c == '"' || c == '\''
  }

  /** The character classes of the pattern. */
  datatype CharClass = CaseEnding | Space | NonQuote

  predicate InClass(c: char, cls: CharClass) {
    match cls
    case CaseEnding => c == 'о' || c == 'м'
    case Space => IsSpace(c)
    case NonQuote => !IsQuote(c)
  }

  /** The end of the run of characters of class `cls` that starts at `i`: a greedy `[...]*`. */
  function SkipRun(s: string, i: nat, cls: CharClass): (j: nat)
    requires i <= |s|
    ensures i <= j <= |s|
    ensures forall k :: i <= k < j ==> InClass(s[k], cls)
    ensures j == |s| || !InClass(s[j], cls)
    decreases |s| - i
  {
    if i < |s| && InClass(s[i], cls) then SkipRun(s, i + 1, cls) else i
  }

  /** The word that introduces the button text. */
  const TextWord := "текст"

  /**
   * The pattern matches at `p` with `текст` followed by the case ending
   * `req[p + 5..m]`, the spaces `req[m..b]`, the opening quote at `b`, the
   * captured text `req[b + 1..e]` and the closing quote at `e`.
   */
  predicate TextMatch(req: string, p: nat, m: nat, b: nat, e: nat) {
    && MatchAt(req, p, TextWord)
    && p + 5 <= m <= b && b + 1 < e < |req|
    && (forall k :: p + 5 <= k < m ==> InClass(req[k], CaseEnding))
    && (forall k :: m <= k < b ==> InClass(req[k], Space))
    && IsQuote(req[b]) && IsQuote(req[e])
    && (forall k :: b + 1 <= k < e ==> InClass(req[k], NonQuote))
  }

  /** The classes do not overlap, so a match at `p` is made of the greedy runs: it is the only one. */
  lemma TextMatchIsGreedy(req: string, p: nat, m: nat, b: nat, e: nat)
    requires TextMatch(req, p, m, b, e)
    ensures m == SkipRun(req, p + 5, CaseEnding)
    ensures b == SkipRun(req, m, Space)
    ensures e == SkipRun(req, b + 1, NonQuote)
  {
    assert !InClass(req[m], CaseEnding);
  }

  /**
   * The captured text when the pattern matches at `p`. The classes of the
   * pattern do not overlap, so each greedy run is the only one that can
   * succeed and no backtracking is needed.
   */
  function TextAt(req: string, p: nat): (r: Option<string>)
    ensures r.None? ==> forall m: nat, b: nat, e: nat :: !TextMatch(req, p, m, b, e)
    ensures r.Some? ==> exists m: nat, b: nat, e: nat :: TextMatch(req, p, m, b, e) && r.value == req[b + 1..e]
    ensures r.Some? ==> r.value != [] && forall k :: 0 <= k < |r.value| ==> !IsQuote(r.value[k])
    ensures r.Some? ==> Contains(req, r.value)
    ensures r.Some? && IsLower(req) ==> IsLower(r.value)
  {
    if !MatchAt(req, p, TextWord) then
      NoTextMatch(req, p);
      None
    else
      var m := SkipRun(req, p + 5, CaseEnding);
      var b := SkipRun(req, m, Space);
      var e := if b < |req| && IsQuote(req[b]) then SkipRun(req, b + 1, NonQuote) else b;
      if b < |req| && IsQuote(req[b]) && b + 1 < e < |req| then
        assert TextMatch(req, p, m, b, e);
        TextFound(req, p, m, b, e);
        Some(req[b + 1..e])
      else
        NoTextMatch(req, p);
        None
  }

  /** What a match captures: a non-empty, quote-free part of the request. */
  lemma TextFound(req: string, p: nat, m: nat, b: nat, e: nat)
    requires TextMatch(req, p, m, b, e)
    ensures var t := req[b + 1..e]; t != [] && (forall k :: 0 <= k < |t| ==> !IsQuote(t[k])) && Contains(req, t)
    ensures IsLower(req) ==> IsLower(req[b + 1..e])
  {
    assert MatchAt(req, b + 1, req[b + 1..e]);
    if IsLower(req) {
      IsLowerSlice(req, b + 1, e);
    }
  }

  /** A match at `p` is the one `TextAt` captures: whichever way the pattern matches there, the capture is the same. */
  lemma TextAtIsTheMatch(req: string, p: nat, m: nat, b: nat, e: nat)
    requires TextMatch(req, p, m, b, e)
    ensures TextAt(req, p) == Some(req[b + 1..e])
  {
    TextMatchIsGreedy(req, p, m, b, e);
  }

  /** Where the greedy runs do not end in a quoted text, the pattern does not match. */
  lemma NoTextMatch(req: string, p: nat)
    requires MatchAt(req, p, TextWord) ==>
      var b := SkipRun(req, SkipRun(req, p + 5, CaseEnding), Space);
      !(b < |req| && IsQuote(req[b]) && b + 1 < SkipRun(req, b + 1, NonQuote) < |req|)
    ensures forall m: nat, b: nat, e: nat :: !TextMatch(req, p, m, b, e)
  {
    forall m: nat, b: nat, e: nat | TextMatch(req, p, m, b, e) ensures false {
      TextMatchIsGreedy(req, p, m, b, e);
    }
  }

  /** The value at the leftmost position of `[p, n]` where `at` yields one: how a regular expression search proceeds. */
  function Leftmost<T>(at: nat -> Option<T>, p: nat, n: nat): (r: Option<T>)
    ensures r.Some? ==> exists q :: p <= q <= n && at(q) == r && forall k :: p <= k < q ==> at(k).None?
    ensures r.None? <==> forall q :: p <= q <= n ==> at(q).None?
    decreases n - p
  {
    if p > n then None
    else if at(p).Some? then at(p)
    else Leftmost(at, p + 1, n)
  }

  /** The search returns the first position that matches, whatever matches later. */
  lemma LeftmostIs<T>(at: nat -> Option<T>, p: nat, q: nat, n: nat)
    requires p <= q <= n && at(q).Some?
    requires forall k :: p <= k < q ==> at(k).None?
    ensures Leftmost(at, p, n) == at(q)
  {
    var r := Leftmost(at, p, n);
    var q' :| p <= q' <= n && at(q') == r && forall k :: p <= k < q' ==> at(k).None?;
  }

  /** `req.match(...)`: the capture of the leftmost match. */
  function FindText(req: string): (r: Option<string>)
    ensures r.Some? ==> exists q: nat :: q <= |req| && TextAt(req, q) == r && forall k: nat :: k < q ==> TextAt(req, k).None?
    ensures r.None? <==> forall q: nat :: q <= |req| ==> TextAt(req, q).None?
  {
    var at := (q: nat) => TextAt(req, q);
    assert forall q: nat :: at(q) == TextAt(req, q);
    Leftmost(at, 0, |req|)
  }

  // ---------------------------------------------------------------------------
  // The icon dictionary

  /**
   * The keyword-to-icon dictionary, in declaration order: each rule has one
   * keyword. It is written in three parts of seventeen entries.
   */
  const IconRules: seq<Rule> := IconRulesA + IconRulesB + IconRulesC

  const IconRulesA: seq<Rule> := [
    Rule(["гаечный ключ"], "wrench"), Rule(["ключ"], "key"), Rule(["звезда"], "star"),
    Rule(["сердце"], "heart"), Rule(["плюс"], "plus"), Rule(["минус"], "minus"),
    Rule(["удалить"], "delete"), Rule(["корзина"], "delete"), Rule(["глаз"], "eye"),
    Rule(["закрыть"], "close"), Rule(["проверить"], "check"), Rule(["галочка"], "check"),
    Rule(["календарь"], "calendar"), Rule(["замок"], "lock"), Rule(["разблокировать"], "unlock"),
    Rule(["папка"], "folder"), Rule(["файл"], "file")
  ]

  const IconRulesB: seq<Rule> := [
    Rule(["камера"], "camera"), Rule(["видео"], "video"), Rule(["микрофон"], "microphone"),
    Rule(["наушники"], "headphones"), Rule(["громкость"], "volume"), Rule(["играть"], "play"),
    Rule(["пауза"], "pause"), Rule(["стоп"], "stop"), Rule(["следующий"], "next"),
    Rule(["предыдущий"], "previous"), Rule(["домой"], "home"), Rule(["настройки"], "settings"),
    Rule(["поиск"], "search"), Rule(["фильтр"], "filter"), Rule(["сортировка"], "sort"),
    Rule(["список"], "list"), Rule(["сетка"], "grid")
  ]

  const IconRulesC: seq<Rule> := [
    Rule(["загрузка"], "upload"), Rule(["скачать"], "download"), Rule(["поделиться"], "share"),
    Rule(["копировать"], "copy"), Rule(["вставить"], "paste"), Rule(["вырезать"], "cut"),
    Rule(["отменить"], "undo"), Rule(["повторить"], "redo"), Rule(["печать"], "print"),
    Rule(["почта"], "mail"), Rule(["телефон"], "phone"), Rule(["сообщение"], "message"),
    Rule(["уведомление"], "notification"), Rule(["предупреждение"], "warning"), Rule(["ошибка"], "error"),
    Rule(["информация"], "info"), Rule(["вопрос"], "question")
  ]

  /** The icon of the first dictionary keyword in the request, or `null`. */
  function IconNameOf(req: string): (r: Option<string>)
    ensures r.None? <==> forall j :: 0 <= j < |IconRules| ==> !RuleMatches(IconRules[j], req)
    ensures r.Some? ==> exists j :: 0 <= j < |IconRules| && RuleMatches(IconRules[j], req) && r.value == IconRules[j].result
                                   && forall k :: 0 <= k < j ==> !RuleMatches(IconRules[k], req)
    ensures r.Some? ==> FirstMatch(IconRules, req) < |IconRules| && r.value == IconRules[FirstMatch(IconRules, req)].result
  {
    var i := FirstMatch(IconRules, req);
    if i < |IconRules| then Some(IconRules[i].result) else None
  }

  /**
   * `гаечный ключ` contains `ключ`, but its entry is declared first, so a
   * request naming the wrench gets the wrench and not the key.
   */
  lemma WrenchBeforeKey(req: string)
    requires Contains(req, "гаечный ключ")
    ensures IconNameOf(req) == Some("wrench")
    ensures Contains(req, "ключ")
  {
    assert IconRules[0] == IconRulesA[0];
    assert "гаечный ключ" in IconRules[0].keys;
    FirstMatchIs(IconRules, req, 0);
    assert MatchAt("гаечный ключ", 8, "ключ");
    ContainsTransitive(req, "гаечный ключ", "ключ");
  }

  // ---------------------------------------------------------------------------
  // parseButtonRequest

  datatype ButtonConfig = ButtonConfig(iconName: Option<string>, buttonText: Option<string>, size: int, style: string)

  const DefaultText := "Кнопка"

  /** The request asks for an icon-only button. */
  predicate OnlyIcon(req: string) {
    Contains(req, "только иконк") || Contains(req, "без текста")
  }

  function ParseButtonRequest(request: string): ButtonConfig {
    var req := Lower(request);
    var found := FindText(req);
    var text := if found.Some? then found.value else DefaultText;
    ButtonConfig(IconNameOf(req), if OnlyIcon(req) then None else Some(text), SizeOf(req), StyleOf(req))
  }

  /**
   * The parsed configuration: the style, size and icon the lower-cased
   * request selects, one of the four styles and size 32 or 40, no text
   * exactly when an icon-only button is asked for, and otherwise the quoted
   * text when the request has one (non-empty, lower-case, without quote
   * characters, occurring in the request) and the default text when not.
   */
  lemma ParseButtonRequestSpec(request: string)
    ensures var c := ParseButtonRequest(request);
      && c.style == StyleOf(Lower(request)) && c.size == SizeOf(Lower(request))
      && c.iconName == IconNameOf(Lower(request))
      && (!OnlyIcon(Lower(request)) ==>
            c.buttonText == Some(if FindText(Lower(request)).Some? then FindText(Lower(request)).value else DefaultText))
      && c.style in Styles
      && (c.size == 32 || c.size == 40)
      && (c.buttonText.None? <==> OnlyIcon(Lower(request)))
      && (c.buttonText.Some? ==> Truthy(c.buttonText))
      && (c.buttonText.Some? && c.buttonText.value != DefaultText ==>
            && FindText(Lower(request)) == c.buttonText
            && IsLower(c.buttonText.value)
            && Contains(Lower(request), c.buttonText.value)
            && forall k :: 0 <= k < |c.buttonText.value| ==> !IsQuote(c.buttonText.value[k]))
      && (c.iconName.Some? ==> Truthy(c.iconName))
  {
    var req := Lower(request);
    LowerIsLower(request);
    var c := ParseButtonRequest(request);
    if c.iconName.Some? {
      IconNamesNonEmpty(req);
    }
  }

  /** Every icon of the dictionary has a non-empty name, so a found icon is truthy. */
  lemma IconNamesNonEmpty(req: string)
    requires IconNameOf(req).Some?
    ensures IconNameOf(req).value != ""
  {
    DictionaryNamesNonEmpty();
  }

  lemma DictionaryNamesNonEmpty()
    ensures forall j :: 0 <= j < |IconRules| ==> IconRules[j].result != ""
  {
    assert forall i :: 0 <= i < |IconRulesA| ==> IconRulesA[i].result != "";
    assert forall i :: 0 <= i < |IconRulesB| ==> IconRulesB[i].result != "";
    assert forall i :: 0 <= i < |IconRulesC| ==> IconRulesC[i].result != "";
  }

  // ---------------------------------------------------------------------------
  // createButtonWithIcon

  datatype ButtonKind = IconStart | IconOnly | TextOnly

  /**
   * The button built: its class list, its kind, its text and, for the kinds
   * with an icon, the markup put into its icon slot.
   */
  datatype Button = Button(className: string, kind: ButtonKind, text: string, icon: Option<string>)

  /** The markup put in the icon slot when rendering the icon throws. */
  const FallbackIcon := "<svg viewBox=\"0 0 24 24\" fill=\"currentColor\"><circle cx=\"12\" cy=\"12\" r=\"3\"/></svg>"

  /** The size the icon is rendered at: 12 in a 32-pixel button, 16 otherwise. */
  function IconSize(size: int): (s: int)
    ensures s == 12 || s == 16
    ensures s == 12 <==> size == 32
  {
    if size == 32 then 12 else 16
  }

  /**
   * `createButtonWithIcon(iconName, buttonText, size, style)`. `rendered` is
   * what rendering `iconName` at `IconSize(size)` gave, `None` when it threw.
   */
  function CreateButtonWithIcon(iconName: Option<string>, buttonText: Option<string>, size: int, style: string, rendered: Option<string>): (b: Button)
  {
    var base := "btn btn--size-" + IntToString(size) + " btn--style-" + style;
    if Truthy(buttonText) && Truthy(iconName) then
      Button(base + " btn--icon-start", IconStart, buttonText.value, Some(rendered.GetOr(FallbackIcon)))
    else if Truthy(iconName) && !Truthy(buttonText) then
      Button(base + " btn--icon-only", IconOnly, "", Some(rendered.GetOr(FallbackIcon)))
    else
      Button(base, TextOnly, if Truthy(buttonText) then buttonText.value else DefaultText, None)
  }

  /** The modifier class each kind adds after the size and style classes. */
  function KindClass(kind: ButtonKind): string {
    match kind
    case IconStart => " btn--icon-start"
    case IconOnly => " btn--icon-only"
    case TextOnly => ""
  }

  /**
   * The three kinds: text and icon gives an icon at the start followed by
   * the text, an icon alone an icon-only button with no text, and no icon a
   * text button that shows its text or the default text when it has none.
   * The class list is `btn`, the size and style classes and the kind's
   * modifier. Only the kinds with an icon fill the icon slot, with the
   * fallback glyph when rendering threw.
   */
  lemma CreateButtonSpec(iconName: Option<string>, buttonText: Option<string>, size: int, style: string, rendered: Option<string>)
    ensures var b := CreateButtonWithIcon(iconName, buttonText, size, style, rendered);
      && (b.kind == IconStart <==> Truthy(iconName) && Truthy(buttonText))
      && (b.kind == IconOnly <==> Truthy(iconName) && !Truthy(buttonText))
      && (b.kind == TextOnly <==> !Truthy(iconName))
      && b.className == "btn btn--size-" + IntToString(size) + " btn--style-" + style + KindClass(b.kind)
      && (b.kind == IconStart ==> b.text == buttonText.value)
      && (b.kind == IconOnly ==> b.text == "")
      && (b.kind == TextOnly ==> b.text == (if Truthy(buttonText) then buttonText.value else DefaultText))
      && (b.kind == TextOnly ==> b.icon.None? && b.text != "")
      && (b.kind != TextOnly ==> b.icon == Some(if rendered.Some? then rendered.value else FallbackIcon))
      && (rendered.None? && b.kind != TextOnly ==> b.icon == Some(FallbackIcon))
  {
  }

  /**
   * `createButtonFromRequest`: a request with no dictionary keyword gives a
   * text button, one with a keyword an icon-only button exactly when it asks
   * for one, and an icon button with text otherwise.
   */
  lemma ButtonFromRequestKind(request: string, rendered: Option<string>)
    ensures var c := ParseButtonRequest(request);
            var b := CreateButtonWithIcon(c.iconName, c.buttonText, c.size, c.style, rendered);
            b.kind == if c.iconName.None? then TextOnly else if OnlyIcon(Lower(request)) then IconOnly else IconStart
  {
    ParseButtonRequestSpec(request);
  }
}
