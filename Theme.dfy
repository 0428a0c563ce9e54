/** The light/dark theme switch: the theme applied when the page loads, and
    the toggle button that flips it and remembers the choice under the
    storage key `theme`. The stored value and the operating system's
    dark-scheme signal are inputs; reading and writing the browser's
    storage is not modelled. */
module Theme {
  import opened Wrappers

  datatype Theme = Light | Dark

  /** The value the toggle writes to storage for a theme. */
  function Name(t: Theme): string
  {
    match t
    case Light => "light"
    case Dark => "dark"
  }

  /** JavaScript truthiness of a value read from storage: `null` and the
      empty string are falsy. */
  predicate Absent(saved: Option<string>)
  {
    saved == None || saved == Some("")
  }

  /** The theme chosen at load from the stored value and the OS signal:
      dark when the stored value is exactly "dark", or when nothing (or the
      empty string) is stored and the OS prefers a dark scheme. */
  function InitialTheme(saved: Option<string>, prefersDark: bool): (t: Theme)
  {
    if saved == Some("dark") || (Absent(saved) && prefersDark) then Dark else Light
  }

  /** A stored theme name wins over the OS signal. */
  lemma StoredNameWins(t: Theme, prefersDark: bool)
    ensures InitialTheme(Some(Name(t)), prefersDark) == t
  {
  }

  /** With nothing usable stored, the OS signal decides. */
  lemma AbsentFollowsOs(saved: Option<string>, prefersDark: bool)
    requires Absent(saved)
    ensures InitialTheme(saved, prefersDark) == (if prefersDark then Dark else Light)
  {
  }

  /** Any other stored string, including one that is not a theme name,
      gives the light theme whatever the OS prefers. */
  lemma UnknownStoredIsLight(s: string, prefersDark: bool)
    requires s != "" && s != "dark"
    ensures InitialTheme(Some(s), prefersDark) == Light
  {
  }

  function Flip(t: Theme): (u: Theme)
    ensures u != t
  {
    if t == Dark then Light else Dark
  }

  lemma FlipTwice(t: Theme)
    ensures Flip(Flip(t)) == t
  {
  }

  /** The page body's two theme classes and the stored preference. */
  class ThemeSwitch {
    var lightClass: bool  // body has class `light-theme`
    var darkClass: bool   // body has class `dark-theme`
    var stored: Option<string>  // value under storage key `theme`

    /** Exactly one of the two theme classes is set. */
    predicate Valid()
      reads this
    {
      lightClass != darkClass
    }

    function Current(): Theme
      reads this
    {
      if darkClass then Dark else Light
    }

    /** Page load: whatever classes the markup carried, the chosen theme's
        class is added and the other one removed; storage is only read. */
    constructor (markupLight: bool, markupDark: bool, saved: Option<string>, prefersDark: bool)
      ensures Valid()
      ensures Current() == InitialTheme(saved, prefersDark)
      ensures stored == saved
    {
      lightClass, darkClass := markupLight, markupDark;
      stored := saved;
      if saved == Some("dark") || (Absent(saved) && prefersDark) {
        lightClass := false;
        darkClass := true;
      } else {
        darkClass := false;
        lightClass := true;
      }
    }

    /** Toggle button click: the presence of `dark-theme` decides the
        direction; the other class is set, and the new theme's name is
        stored. */
    method Toggle()
      modifies this
      ensures Valid()
      ensures darkClass == !old(darkClass)
      ensures Current() == Flip(old(Current()))
      ensures stored == Some(Name(Current()))
    {
      if darkClass {
        darkClass := false;
        lightClass := true;
        stored := Some("light");
      } else {
        lightClass := false;
        darkClass := true;
        stored := Some("dark");
      }
    }

    /** Two clicks restore the theme classes and leave the original theme's
        name in storage. */
    method ToggleTwice()
      requires Valid()
      modifies this
      ensures Valid()
      ensures lightClass == old(lightClass) && darkClass == old(darkClass)
      ensures stored == Some(Name(old(Current())))
    {
      Toggle();
      Toggle();
      FlipTwice(old(Current()));
    }
  }
}
