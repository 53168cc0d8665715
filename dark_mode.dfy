/**
 * The dark-mode controller of the page. The theme is the one stored in
 * local storage, else the system colour-scheme preference when the browser
 * can report it, else "light". Applying it sets the `dark` class on the
 * html element, shows the icon of the opposite theme, and sets the
 * `theme-color` meta tag. Local storage, the media query and the DOM
 * elements are fields and objects of the model.
 */
module DarkMode {
  import opened Common

  const ThemeDark: string := "dark"
  const ThemeLight: string := "light"
  const DarkClass: string := "dark"
  const HiddenClass: string := "hidden"
  const DarkMetaColor: string := "#0D0D0D"
  const LightMetaColor: string := "#FFFFFF"

  /** A DOM element: its class list and its inline `transition` style. */
  class Element {
    var classes: set<string>
    var transition: string

    constructor(classes: set<string>, transition: string)
      ensures this.classes == classes && this.transition == transition
    {
      this.classes := classes;
      this.transition := transition;
    }

    /** `classList.toggle(name, force)`: add the class when `force` holds,
        remove it otherwise; no other class changes. */
    method ToggleClass(name: string, force: bool)
      modifies this
      ensures name in classes <==> force
      ensures classes - {name} == old(classes) - {name}
      ensures transition == old(transition)
    {
      if force {
        classes := classes + {name};
      } else {
        classes := classes - {name};
      }
    }
  }

  /** The `<meta name="theme-color">` tag. */
  class MetaTag {
    var content: string

    constructor(content: string)
      ensures this.content == content
    {
      this.content := content;
    }
  }

  /** `isThemeDark`: only the exact string "dark" is dark. */
  predicate IsThemeDark(theme: string)
    ensures IsThemeDark(theme) <==> theme == ThemeDark
    ensures IsThemeDark(theme) ==> theme != ThemeLight
  {
    theme == ThemeDark
  }

  /** `getSystemTheme`: nothing without `matchMedia`, otherwise "dark" or
      "light" as the colour-scheme query says. */
  function SystemTheme(supportsMatchMedia: bool, prefersDark: bool): (t: Option<string>)
    ensures t.None? <==> !supportsMatchMedia
    ensures t.Some? ==> (t.value == ThemeDark || t.value == ThemeLight)
    ensures t.Some? ==> (IsThemeDark(t.value) <==> prefersDark)
  {
    if !supportsMatchMedia then None
    else if prefersDark then Some(ThemeDark) else Some(ThemeLight)
  }

  /** A stored value counts only when it is truthy: null and the empty
      string do not. */
  predicate Truthy(stored: Option<string>)
  {
    stored.Some? && stored.value != ""
  }

  /** `getTheme` on given inputs: stored, then system, then "light". */
  function ResolveTheme(stored: Option<string>, system: Option<string>): (t: string)
    ensures Truthy(stored) ==> t == stored.value
    ensures !Truthy(stored) && system.Some? ==> t == system.value
    ensures !Truthy(stored) && system.None? ==> t == ThemeLight
  {
    if Truthy(stored) then stored.value
    else if system.Some? then system.value
    else ThemeLight
  }

  /** Without a stored theme the theme is "dark" or "light", dark exactly
      when the browser reports a dark preference. */
  lemma UnstoredThemeFollowsSystem(stored: Option<string>, supportsMatchMedia: bool, prefersDark: bool)
    requires !Truthy(stored)
    ensures var t := ResolveTheme(stored, SystemTheme(supportsMatchMedia, prefersDark));
      (t == ThemeDark || t == ThemeLight) &&
      (IsThemeDark(t) <==> supportsMatchMedia && prefersDark)
  {
  }

  /** A differently cased "Dark" is not dark. */
  lemma OnlyExactDarkIsDark(theme: string)
    requires theme == "Dark"
    ensures !IsThemeDark(theme)
  {
    assert theme[0] != ThemeDark[0];
  }

  class DarkModeController {
    /** `localStorage.getItem("theme")`. */
    var stored: Option<string>
    /** Whether `window.matchMedia` exists. */
    var supportsMatchMedia: bool
    /** Whether `(prefers-color-scheme: dark)` matches. */
    var prefersDark: bool
    /** `document.documentElement`. */
    const html: Element
    /** The two icon targets, when present. */
    const lightIcon: Option<Element>
    const darkIcon: Option<Element>
    /** The theme-color meta tag, when the page has one. */
    const metaTag: Option<MetaTag>

    /** The html element and the two icons are three different elements. */
    predicate Valid()
    {
      (lightIcon.Some? ==> lightIcon.value != html) &&
      (darkIcon.Some? ==> darkIcon.value != html) &&
      (lightIcon.Some? && darkIcon.Some? ==> lightIcon.value != darkIcon.value)
    }

    constructor(stored: Option<string>, supportsMatchMedia: bool, prefersDark: bool,
                html: Element, lightIcon: Option<Element>, darkIcon: Option<Element>,
                metaTag: Option<MetaTag>)
      requires lightIcon.Some? ==> lightIcon.value != html
      requires darkIcon.Some? ==> darkIcon.value != html
      requires lightIcon.Some? && darkIcon.Some? ==> lightIcon.value != darkIcon.value
      ensures Valid()
      ensures this.stored == stored && this.supportsMatchMedia == supportsMatchMedia
      ensures this.prefersDark == prefersDark && this.html == html
      ensures this.lightIcon == lightIcon && this.darkIcon == darkIcon && this.metaTag == metaTag
    {
      this.stored := stored;
      this.supportsMatchMedia := supportsMatchMedia;
      this.prefersDark := prefersDark;
      this.html := html;
      this.lightIcon := lightIcon;
      this.darkIcon := darkIcon;
      this.metaTag := metaTag;
    }

    /** The icon elements that are present. */
    function Icons(): set<Element>
    {
      (if lightIcon.Some? then {lightIcon.value} else {}) +
      (if darkIcon.Some? then {darkIcon.value} else {})
    }

    /** The meta tag, when present. */
    function Metas(): set<MetaTag>
    {
      if metaTag.Some? then {metaTag.value} else {}
    }

    /** `getTheme`. */
    function GetTheme(): (t: string)
      reads this
      ensures Truthy(stored) ==> t == stored.value
      ensures !Truthy(stored) ==> (
        (t == ThemeDark || t == ThemeLight) && (IsThemeDark(t) <==> supportsMatchMedia && prefersDark))
    {
      ResolveTheme(stored, SystemTheme(supportsMatchMedia, prefersDark))
    }

    /** `hasIconTargets`: both icons are present. */
    predicate HasIconTargets()
    {
      lightIcon.Some? && darkIcon.Some?
    }

    /** The icons show the theme: the light (sun) icon is visible in dark
        mode, the dark (moon) icon in light mode, exactly one of them. */
    predicate IconsShow(dark: bool)
      requires HasIconTargets()
      reads lightIcon.value, darkIcon.value
    {
      (HiddenClass !in lightIcon.value.classes <==> dark) &&
      (HiddenClass !in darkIcon.value.classes <==> !dark)
    }

    /** The page shows the theme: the html `dark` class, the icons when both
        are present, and the meta colour when the tag is present. */
    predicate Shows(dark: bool)
      reads html, Icons(), Metas()
    {
      (DarkClass in html.classes <==> dark) &&
      (HasIconTargets() ==> IconsShow(dark)) &&
      (metaTag.Some? ==> metaTag.value.content == if dark then DarkMetaColor else LightMetaColor)
    }

    /** `setTheme`: store the theme. */
    method SetTheme(theme: string)
      modifies this
      ensures stored == Some(theme)
      ensures supportsMatchMedia == old(supportsMatchMedia) && prefersDark == old(prefersDark)
      ensures theme != "" ==> GetTheme() == theme
    {
      stored := Some(theme);
    }

    /** `applyThemeToHtml`: the html `dark` class is set exactly when the
        theme is dark; its other classes are kept. */
    method ApplyThemeToHtml(theme: string)
      modifies html
      ensures DarkClass in html.classes <==> IsThemeDark(theme)
      ensures html.classes - {DarkClass} == old(html.classes) - {DarkClass}
      ensures html.transition == old(html.transition)
    {
      html.ToggleClass(DarkClass, IsThemeDark(theme));
    }

    /** `updateIcon`: with both targets present, hide the icon of the current
        theme and show the other; with either missing, change nothing. */
    method UpdateIcon()
      requires Valid()
      modifies Icons()
      ensures HasIconTargets() ==> IconsShow(IsThemeDark(GetTheme()))
      ensures HasIconTargets() ==> (
        lightIcon.value.classes - {HiddenClass} == old(lightIcon.value.classes) - {HiddenClass} &&
        darkIcon.value.classes - {HiddenClass} == old(darkIcon.value.classes) - {HiddenClass})
      ensures !HasIconTargets() ==> forall e :: e in Icons() ==> e.classes == old(e.classes)
    {
      if !HasIconTargets() {
        return;
      }
      var isDark := IsThemeDark(GetTheme());
      lightIcon.value.ToggleClass(HiddenClass, !isDark);
      darkIcon.value.ToggleClass(HiddenClass, isDark);
    }

    /** `updateMetaThemeColor`: the dark or the light colour, when the tag
        exists. */
    method UpdateMetaThemeColor(theme: string)
      modifies Metas()
      ensures metaTag.Some? ==> metaTag.value.content == if IsThemeDark(theme) then DarkMetaColor else LightMetaColor
    {
      if metaTag.Some? {
        metaTag.value.content := if IsThemeDark(theme) then DarkMetaColor else LightMetaColor;
      }
    }

    /** `applyTheme`: bring the page in line with the current theme. */
    method ApplyTheme()
      requires Valid()
      modifies html, Icons(), Metas()
      ensures Shows(IsThemeDark(GetTheme()))
      ensures html.classes - {DarkClass} == old(html.classes) - {DarkClass}
      ensures html.transition == old(html.transition)
      ensures HasIconTargets() ==> (
        lightIcon.value.classes - {HiddenClass} == old(lightIcon.value.classes) - {HiddenClass} &&
        darkIcon.value.classes - {HiddenClass} == old(darkIcon.value.classes) - {HiddenClass})
      ensures !HasIconTargets() ==> forall e :: e in Icons() ==> e.classes == old(e.classes)
    {
      var theme := GetTheme();
      ApplyThemeToHtml(theme);
      UpdateIcon();
      UpdateMetaThemeColor(theme);
    }

    /** `toggle`: store the opposite of the current theme and apply it, so
        darkness after a toggle is the negation of darkness before. */
    method Toggle()
      requires Valid()
      modifies this, html, Icons(), Metas()
      ensures stored == Some(if old(IsThemeDark(GetTheme())) then ThemeLight else ThemeDark)
      ensures IsThemeDark(GetTheme()) <==> !old(IsThemeDark(GetTheme()))
      ensures Shows(IsThemeDark(GetTheme()))
      ensures supportsMatchMedia == old(supportsMatchMedia) && prefersDark == old(prefersDark)
      ensures html.classes - {DarkClass} == old(html.classes) - {DarkClass}
      ensures html.transition == old(html.transition)
      ensures HasIconTargets() ==> (
        lightIcon.value.classes - {HiddenClass} == old(lightIcon.value.classes) - {HiddenClass} &&
        darkIcon.value.classes - {HiddenClass} == old(darkIcon.value.classes) - {HiddenClass})
      ensures !HasIconTargets() ==> forall e :: e in Icons() ==> e.classes == old(e.classes)
    {
      var current := GetTheme();
      var next := if IsThemeDark(current) then ThemeLight else ThemeDark;
      SetTheme(next);
      ApplyTheme();
    }

    /** `handleSystemPreferenceChange`: the new preference is applied only
        when no theme is stored; a stored theme leaves the page untouched. */
    method HandleSystemPreferenceChange()
      requires Valid()
      modifies html, Icons(), Metas()
      ensures Truthy(stored) ==> (
        html.classes == old(html.classes) &&
        (forall e :: e in Icons() ==> e.classes == old(e.classes)) &&
        (metaTag.Some? ==> metaTag.value.content == old(metaTag.value.content)))
      ensures !Truthy(stored) ==> Shows(supportsMatchMedia && prefersDark)
      ensures html.transition == old(html.transition)
      ensures html.classes - {DarkClass} == old(html.classes) - {DarkClass}
      ensures HasIconTargets() ==> (
        lightIcon.value.classes - {HiddenClass} == old(lightIcon.value.classes) - {HiddenClass} &&
        darkIcon.value.classes - {HiddenClass} == old(darkIcon.value.classes) - {HiddenClass})
      ensures !HasIconTargets() ==> forall e :: e in Icons() ==> e.classes == old(e.classes)
    {
      if !Truthy(stored) {
        ApplyTheme();
      }
    }

    /** `handleTurboBeforeRender`: the incoming page body gets the `dark`
        class exactly when the current theme is dark. */
    method HandleTurboBeforeRender(newBody: Element)
      modifies newBody
      ensures DarkClass in newBody.classes <==> IsThemeDark(GetTheme())
      ensures newBody.classes - {DarkClass} == old(newBody.classes) - {DarkClass}
    {
      newBody.ToggleClass(DarkClass, IsThemeDark(GetTheme()));
    }

    /** `handleTurboBeforeCache`: clear the html element's transition before
        the page is cached. */
    method HandleTurboBeforeCache()
      modifies html
      ensures html.transition == "" && html.classes == old(html.classes)
    {
      html.transition := "";
    }
  }

  /** Toggling twice restores the darkness of the page. */
  method ToggleTwice(c: DarkModeController)
    requires c.Valid()
    modifies c, c.html, c.Icons(), c.Metas()
    ensures IsThemeDark(c.GetTheme()) == old(IsThemeDark(c.GetTheme()))
    ensures c.Shows(old(IsThemeDark(c.GetTheme())))
  {
    c.Toggle();
    c.Toggle();
  }
}
