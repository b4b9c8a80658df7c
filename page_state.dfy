/**
 * The state that the UI kit page's handlers change: the colour theme, the
 * collapsible content blocks with their `aria-expanded` attribute, and the
 * select component's open flag, attributes and selected option.
 */
module PageState {
  import opened Wrappers
  import opened Strings

  /** `b.toString()` for a boolean, as written into ARIA attributes. */
  function BoolText(b: bool): (s: string)
    ensures s == "true" || s == "false"
    ensures s == "true" <==> b
  {
    if b then "true" else "false"
  }

  // ---------------------------------------------------------------------------
  // toggleTheme

  /** The theme `toggleTheme` switches to: from light, or from no theme, to dark; from anything else to light. */
  function NextTheme(current: Option<string>): (next: string)
    ensures next == "light" || next == "dark"
    ensures next == "dark" <==> !Truthy(current) || current.value == "light"
  {
    var theme := if Truthy(current) then current.value else "light";
    if theme == "light" then "dark" else "light"
  }

  /** Two toggles come back to where they started, from either theme; the first toggle always changes the theme. */
  lemma NextThemeAlternates(current: Option<string>)
    ensures NextTheme(Some(NextTheme(current))) != NextTheme(current)
    ensures current == Some("light") || current == Some("dark") ==> NextTheme(Some(NextTheme(current))) == current.value
  {
  }

  /** The glyph of the theme button: the sun for the light theme, the moon otherwise. */
  datatype ThemeGlyph = Sun | Moon

  function GlyphFor(theme: string): (g: ThemeGlyph)
    ensures g == Sun <==> theme == "light"
  {
    if theme == "light" then Sun else Moon
  }

  class Page {
    /** The body's `data-theme` attribute. */
    var dataTheme: Option<string>
    /** The `theme` entry of local storage. */
    var storedTheme: Option<string>
    /** The glyph drawn in the theme button. */
    var glyph: ThemeGlyph

    /** After a toggle the attribute, the stored theme and the glyph agree. */
    ghost predicate Valid()
      reads this
    {
      dataTheme.Some? && storedTheme == dataTheme && glyph == GlyphFor(dataTheme.value)
    }

    constructor (theme: Option<string>, stored: Option<string>, g: ThemeGlyph)
      ensures dataTheme == theme && storedTheme == stored && glyph == g
    {
      dataTheme := theme;
      storedTheme := stored;
      glyph := g;
    }

    /** `toggleTheme`: writes the next theme to the attribute and to storage and redraws the glyph. */
    method ToggleTheme()
      modifies this
      ensures dataTheme == Some(NextTheme(old(dataTheme)))
      ensures storedTheme == dataTheme && glyph == GlyphFor(NextTheme(old(dataTheme)))
      ensures Valid()
    {
      var current := if Truthy(dataTheme) then dataTheme.value else "light";
      var next := if current == "light" then "dark" else "light";
      dataTheme := Some(next);
      storedTheme := Some(next);
      glyph := if next == "light" then Sun else Moon;
    }
  }

  // ---------------------------------------------------------------------------
  // toggleBlock and updateAriaExpanded

  /** The `collapsed` and `expanded` classes after `toggleBlock`: a collapsed block expands, any other collapses. */
  function ToggledClasses(collapsed: bool, expanded: bool): (r: (bool, bool))
    ensures r.0 != r.1
    ensures r.1 <==> collapsed
  {
    if collapsed then (false, true) else (true, false)
  }

  /** From a block with exactly one of the two classes, two toggles come back to it. */
  lemma ToggleTwice(collapsed: bool, expanded: bool)
    requires collapsed != expanded
    ensures var once := ToggledClasses(collapsed, expanded);
            ToggledClasses(once.0, once.1) == (collapsed, expanded)
  {
  }

  class Block {
    /** The block's `data-block` name. */
    const name: string
    var collapsed: bool
    var expanded: bool
    /** The chevron's rotation in degrees. */
    var rotation: int
    /** The header's `aria-expanded` attribute. */
    var ariaExpanded: string

    /** `aria-expanded` tells whether the `expanded` class is present. */
    ghost predicate Valid()
      reads this
    {
      ariaExpanded == BoolText(expanded)
    }

    constructor (blockName: string, isCollapsed: bool, isExpanded: bool, aria: string)
      ensures name == blockName && collapsed == isCollapsed && expanded == isExpanded
      ensures rotation == 0 && ariaExpanded == aria
    {
      name := blockName;
      collapsed := isCollapsed;
      expanded := isExpanded;
      rotation := 0;
      ariaExpanded := aria;
    }

    /** `updateAriaExpanded`, as run for every block when the page loads. */
    method UpdateAriaExpanded()
      modifies this
      ensures ariaExpanded == BoolText(expanded) && Valid()
      ensures collapsed == old(collapsed) && expanded == old(expanded) && rotation == old(rotation)
    {
      ariaExpanded := if expanded then "true" else "false";
    }

    /**
     * `toggleBlock`: flips the classes, turns the chevron and updates
     * `aria-expanded`. `loadsIcons` tells whether the icon demo is scheduled:
     * the `icons` block was expanded while the icon system exists.
     */
    method Toggle(iconSystemPresent: bool) returns (loadsIcons: bool)
      modifies this
      ensures (collapsed, expanded) == ToggledClasses(old(collapsed), old(expanded))
      ensures rotation == if expanded then 180 else 0
      ensures loadsIcons <==> old(collapsed) && name == "icons" && iconSystemPresent
      ensures Valid()
    {
      loadsIcons := false;
      if collapsed {
        collapsed := false;
        expanded := true;
        rotation := 180;
        if name == "icons" && iconSystemPresent {
          loadsIcons := true;
        }
      } else {
        expanded := false;
        collapsed := true;
        rotation := 0;
      }
      UpdateAriaExpanded();
    }
  }

  // ---------------------------------------------------------------------------
  // The select component

  /** One option: its `data-value`, the text of its `.select-option-text` child if any, and its whole text. */
  datatype SelectOption = SelectOption(value: string, caption: Option<string>, text: string)

  /** The text shown in the button once the option is chosen: the caption when non-empty, else the trimmed text. */
  function OptionText(o: SelectOption): (t: string)
    ensures Truthy(o.caption) ==> t == o.caption.value
    ensures !Truthy(o.caption) ==> t == Trim(o.text)
  {
    if Truthy(o.caption) then o.caption.value else Trim(o.text)
  }

  /** The keys that open the dropdown. */
  predicate OpensOnKey(key: string) {
    key == "Enter" || key == " " || key == "ArrowDown"
  }

  /** Whether the dropdown is open after a key press on the button. */
  function OpenAfterKey(isOpen: bool, key: string): bool {
    if OpensOnKey(key) then true else if key == "Escape" then false else isOpen
  }

  /** Whether the dropdown is open after a click anywhere in the document. */
  function OpenAfterClick(isOpen: bool, inside: bool): bool {
    if inside then isOpen else false
  }

  /**
   * The opening keys never close the dropdown, Escape and outside clicks
   * never open it, other keys and inside clicks change nothing, and repeating
   * an event changes nothing more.
   */
  lemma SelectEventsSpec(isOpen: bool, key: string, inside: bool)
    ensures OpensOnKey(key) ==> OpenAfterKey(isOpen, key)
    ensures key == "Escape" ==> !OpenAfterKey(isOpen, key)
    ensures !OpensOnKey(key) && key != "Escape" ==> OpenAfterKey(isOpen, key) == isOpen
    ensures OpenAfterKey(OpenAfterKey(isOpen, key), key) == OpenAfterKey(isOpen, key)
    ensures !inside ==> !OpenAfterClick(isOpen, inside)
    ensures inside ==> OpenAfterClick(isOpen, inside) == isOpen
    ensures OpenAfterClick(OpenAfterClick(isOpen, inside), inside) == OpenAfterClick(isOpen, inside)
  {
  }

  class Select {
    const options: seq<SelectOption>
    /** The closure's `isOpen` flag. */
    var isOpen: bool
    /** Whether the dropdown has the `select-dropdown-open` class. */
    var dropdownShown: bool
    /** Whether the icon has the `select-icon-up` class. */
    var iconUp: bool
    /** The button's `aria-expanded` and the dropdown's `aria-hidden`. */
    var ariaExpanded: string
    var ariaHidden: string
    /** Which options have the `select-option-selected` class. */
    var selected: seq<bool>
    /** The text of the button's `.select-text`. */
    var buttonText: string

    /** The classes and ARIA attributes follow `isOpen`, and there is a flag per option. */
    ghost predicate Valid()
      reads this
    {
      && dropdownShown == isOpen && iconUp == isOpen
      && ariaExpanded == BoolText(isOpen) && ariaHidden == BoolText(!isOpen)
      && |selected| == |options|
    }

    /** A closed select (`isOpen` starts false) with the page's options, their marks and the button text. */
    constructor (opts: seq<SelectOption>, marks: seq<bool>, text: string)
      requires |marks| == |opts|
      ensures options == opts && selected == marks && buttonText == text && !isOpen
      ensures Valid()
    {
      options := opts;
      isOpen := false;
      dropdownShown := false;
      iconUp := false;
      ariaExpanded := "false";
      ariaHidden := "true";
      selected := marks;
      buttonText := text;
    }

    /** `toggleDropdown`: flips `isOpen` and sets the classes and attributes to match. */
    method ToggleDropdown()
      modifies this
      ensures isOpen == !old(isOpen) && Valid() == (|selected| == |options|)
      ensures ariaExpanded == BoolText(isOpen) && ariaHidden == BoolText(!isOpen)
      ensures selected == old(selected) && buttonText == old(buttonText)
    {
      isOpen := !isOpen;
      if isOpen {
        dropdownShown := true;
        ariaExpanded := "true";
        iconUp := true;
        ariaHidden := "false";
      } else {
        dropdownShown := false;
        ariaExpanded := "false";
        iconUp := false;
        ariaHidden := "true";
      }
    }

    /** The button's `keydown` handler. */
    method KeyDown(key: string)
      requires Valid()
      modifies this
      ensures isOpen == OpenAfterKey(old(isOpen), key) && Valid()
      ensures selected == old(selected) && buttonText == old(buttonText)
    {
      if OpensOnKey(key) {
        if !isOpen {
          ToggleDropdown();
        }
      } else if key == "Escape" && isOpen {
        ToggleDropdown();
      }
    }

    /** The document's `click` handler; `inside` tells whether the target is within the select. */
    method DocumentClick(inside: bool)
      requires Valid()
      modifies this
      ensures isOpen == OpenAfterClick(old(isOpen), inside) && Valid()
      ensures selected == old(selected) && buttonText == old(buttonText)
    {
      if !inside && isOpen {
        ToggleDropdown();
      }
    }

    /** The button's `click` handler. */
    method ButtonClick()
      requires Valid()
      modifies this
      ensures isOpen == !old(isOpen) && Valid()
      ensures selected == old(selected) && buttonText == old(buttonText)
    {
      ToggleDropdown();
    }

    /**
     * A click on option `i`: its text goes into the button, it becomes the
     * only selected option, and the dropdown is toggled.
     */
    method OptionClick(i: nat)
      requires Valid() && i < |options|
      modifies this
      ensures buttonText == OptionText(options[i])
      ensures |selected| == |options| && forall j :: 0 <= j < |selected| ==> selected[j] == (j == i)
      ensures isOpen == !old(isOpen) && Valid()
    {
      buttonText := OptionText(options[i]);
      var flags := selected;
      var k := 0;
      while k < |flags|
        invariant 0 <= k <= |flags| == |options|
        invariant forall j :: 0 <= j < k ==> !flags[j]
      {
        flags := flags[k := false];
        k := k + 1;
      }
      selected := flags[i := true];
      ToggleDropdown();
    }
  }
}
