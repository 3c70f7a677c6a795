/** The theme preference of the page: the `data-theme` attribute of the root element
    follows the saved preference (`localStorage` item `theme`) when there is one, and the
    system colour scheme (`prefers-color-scheme: dark`) otherwise. */
module Theme {
  import opened Strings

  /** The icon shown in the theme toggle button. */
  datatype Icon = Moon | Sun

  /** What the theme code reads and writes: the saved preference, whether the system
      prefers dark, the root's `data-theme` attribute, the toggle button's icon, and
      whether the page has a toggle button at all. */
  datatype ThemeState = ThemeState(
    saved: Option<string>,
    systemDark: bool,
    dataTheme: Option<string>,
    icon: Option<Icon>,
    hasToggle: bool)

  /** The theme matching the system colour scheme. */
  function SystemTheme(systemDark: bool): (t: string)
    ensures t == "dark" <==> systemDark
    ensures t == "dark" || t == "light"
  {
    if systemDark then "dark" else "light"
  }

  /** The attribute value `applyTheme` sets for `theme`. */
  function AppliedTheme(theme: string): (t: string)
    ensures t == "dark" <==> theme == "dark"
    ensures t == "dark" || t == "light"
  {
    if theme == "dark" then "dark" else "light"
  }

  function IconFor(t: string): Icon {
    if t == "dark" then Moon else Sun
  }

  /** A saved value counts as a manual preference unless it is absent or empty (both are
      falsy in `!savedTheme`). */
  predicate HasManualPreference(saved: Option<string>) {
    saved.Some? && saved.value != ""
  }

  /** `getPreferredTheme`: the saved value when there is a manual preference, else the
      system theme. */
  function PreferredTheme(saved: Option<string>, systemDark: bool): (t: string)
    ensures HasManualPreference(saved) ==> t == saved.value
    ensures !HasManualPreference(saved) ==> t == SystemTheme(systemDark)
  {
    if !HasManualPreference(saved) then SystemTheme(systemDark) else saved.value
  }

  /** `applyTheme(theme)` (script.js:6-18): set the attribute, and the icon when the button
      exists. Its properties are ApplySpec. */
  function Apply(s: ThemeState, theme: string): ThemeState {
    var t := AppliedTheme(theme);
    s.(dataTheme := Some(t), icon := if s.hasToggle then Some(IconFor(t)) else s.icon)
  }

  /** Page load (script.js:45-47): the preferred theme is applied. Its properties are
      LoadSpec. */
  function Load(saved: Option<string>, systemDark: bool, hasToggle: bool): ThemeState {
    Apply(ThemeState(saved, systemDark, None, None, hasToggle), PreferredTheme(saved, systemDark))
  }

  /** `handleSystemThemeChange` (script.js:34-43): the system scheme is now `matches`; it
      is applied only when there is no manual preference. Its properties are
      SystemChangeSpec. */
  function SystemChange(s: ThemeState, matches: bool): ThemeState {
    var s' := s.(systemDark := matches);
    if !HasManualPreference(s.saved) then Apply(s', SystemTheme(matches)) else s'
  }

  /** The toggle button's click handler (script.js:56-62): flip the current attribute and
      save the result. Its properties are ToggleSpec and ToggleTwice. */
  function Toggle(s: ThemeState): ThemeState {
    var t := if s.dataTheme == Some("dark") then "light" else "dark";
    Apply(s, t).(saved := Some(t))
  }

  /** The reset button's click handler (script.js:68-73): forget the saved value and apply
      the system theme. Its properties are ResetSpec. */
  function Reset(s: ThemeState): ThemeState {
    Apply(s.(saved := None), SystemTheme(s.systemDark))
  }

  /** The states the page can be in after it has loaded: the attribute is "dark" or
      "light", and the icon, when there is a button, matches it. */
  predicate Valid(s: ThemeState) {
    && (s.dataTheme == Some("dark") || s.dataTheme == Some("light"))
    && (s.hasToggle ==> s.icon == Some(IconFor(s.dataTheme.value)))
  }

  /** `applyTheme` sets "dark" exactly for the value "dark", "light" for anything else,
      shows the moon exactly with "dark", and changes nothing else. */
  lemma ApplySpec(s: ThemeState, theme: string)
    ensures Apply(s, theme).dataTheme == Some(if theme == "dark" then "dark" else "light")
    ensures s.hasToggle ==> (Apply(s, theme).icon == Some(Moon) <==> theme == "dark")
    ensures !s.hasToggle ==> Apply(s, theme).icon == s.icon
    ensures Apply(s, theme).saved == s.saved && Apply(s, theme).systemDark == s.systemDark
    ensures Valid(Apply(s, theme))
  {
  }

  /** On load the page is dark exactly when the saved preference says "dark", or, with
      no manual preference, when the system prefers dark. */
  lemma LoadSpec(saved: Option<string>, systemDark: bool, hasToggle: bool)
    ensures Valid(Load(saved, systemDark, hasToggle))
    ensures Load(saved, systemDark, hasToggle).dataTheme == Some("dark") <==>
              if HasManualPreference(saved) then saved.value == "dark" else systemDark
    ensures Load(saved, systemDark, hasToggle).saved == saved
  {
  }

  /** Every handler keeps the page in a valid state. */
  lemma HandlersPreserveValid(s: ThemeState, matches: bool)
    requires Valid(s)
    ensures Valid(SystemChange(s, matches)) && Valid(Toggle(s)) && Valid(Reset(s))
  {
  }

  /** A change of the system scheme is ignored while a manual preference is saved, and
      followed otherwise. */
  lemma SystemChangeSpec(s: ThemeState, matches: bool)
    ensures HasManualPreference(s.saved) ==>
              SystemChange(s, matches).dataTheme == s.dataTheme && SystemChange(s, matches).icon == s.icon
    ensures !HasManualPreference(s.saved) ==> SystemChange(s, matches).dataTheme == Some(SystemTheme(matches))
    ensures SystemChange(s, matches).saved == s.saved
  {
  }

  /** The toggle flips the attribute ("light" after "dark", "dark" after anything else)
      and saves the new value as a manual preference. */
  lemma ToggleSpec(s: ThemeState)
    ensures Toggle(s).dataTheme == Some(if s.dataTheme == Some("dark") then "light" else "dark")
    ensures Toggle(s).saved == Toggle(s).dataTheme && HasManualPreference(Toggle(s).saved)
    ensures Toggle(s).systemDark == s.systemDark
  {
  }

  /** Toggling twice brings a loaded page back to its theme, now saved. */
  lemma ToggleTwice(s: ThemeState)
    requires Valid(s)
    ensures Toggle(Toggle(s)).dataTheme == s.dataTheme
    ensures Toggle(Toggle(s)).icon == s.icon
    ensures Toggle(Toggle(s)).saved == s.dataTheme
  {
  }

  /** A manual choice survives a reload and any later change of the system scheme. */
  lemma ToggleSurvivesReload(s: ThemeState, systemDark: bool, matches: bool)
    ensures Load(Toggle(s).saved, systemDark, s.hasToggle).dataTheme == Toggle(s).dataTheme
    ensures SystemChange(Load(Toggle(s).saved, systemDark, s.hasToggle), matches).dataTheme == Toggle(s).dataTheme
  {
  }

  /** Reset forgets the saved value and applies the system theme, and from then on the
      page follows the system again. */
  lemma ResetSpec(s: ThemeState, matches: bool)
    ensures Reset(s).saved.None?
    ensures Reset(s).dataTheme == Some(SystemTheme(s.systemDark))
    ensures SystemChange(Reset(s), matches).dataTheme == Some(SystemTheme(matches))
  {
  }

  /** The root element and the buttons the theme handlers work on. */
  class ThemeController {
    var saved: Option<string>
    var systemDark: bool
    var dataTheme: Option<string>
    var icon: Option<Icon>
    const hasToggle: bool
    const hasReset: bool

    function State(): ThemeState
      reads this
    {
      ThemeState(saved, systemDark, dataTheme, icon, hasToggle)
    }

    /** The page loads with the given saved value and system scheme. */
    constructor(storedTheme: Option<string>, prefersDark: bool, toggleButton: bool, resetButton: bool)
      ensures State() == Load(storedTheme, prefersDark, toggleButton) && hasReset == resetButton
    {
      saved := storedTheme;
      systemDark := prefersDark;
      dataTheme := None;
      icon := None;
      hasToggle := toggleButton;
      hasReset := resetButton;
      new;
      var initialTheme := GetPreferredTheme();
      ApplyTheme(initialTheme);
    }

    method ApplyTheme(theme: string)
      modifies this
      ensures State() == Apply(old(State()), theme)
    {
      if theme == "dark" {
        dataTheme := Some("dark");
        if hasToggle {
          icon := Some(Moon);
        }
      } else {
        dataTheme := Some("light");
        if hasToggle {
          icon := Some(Sun);
        }
      }
    }

    method GetPreferredTheme() returns (theme: string)
      ensures theme == PreferredTheme(saved, systemDark)
    {
      var savedTheme := saved;
      if savedTheme.None? || savedTheme.value == "" {
        return if systemDark then "dark" else "light";
      }
      return savedTheme.value;
    }

    method HandleSystemThemeChange(matches: bool)
      modifies this
      ensures State() == SystemChange(old(State()), matches)
    {
      systemDark := matches;
      var hasManualPreference := saved;
      if hasManualPreference.None? || hasManualPreference.value == "" {
        var systemTheme := if matches then "dark" else "light";
        ApplyTheme(systemTheme);
      }
    }

    /** The toggle button's click handler; it is attached only when the button exists. */
    method ToggleClick()
      requires hasToggle
      modifies this
      ensures State() == Toggle(old(State()))
    {
      var currentTheme := dataTheme;
      var newTheme := if currentTheme == Some("dark") then "light" else "dark";
      ApplyTheme(newTheme);
      saved := Some(newTheme);
    }

    /** The reset button's click handler; it is attached only when the button exists. */
    method ResetClick()
      requires hasReset
      modifies this
      ensures State() == Reset(old(State()))
    {
      saved := None;
      var systemTheme := if systemDark then "dark" else "light";
      ApplyTheme(systemTheme);
    }
  }
}
