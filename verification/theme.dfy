/**
 * The light/dark theme: the first choice from saved preference or the system setting,
 * the toggle, and the effects that keep the page's root classes and saved preference in
 * step with the current theme.
 */
module Theme {
  import opened Wrappers

  const Light: string := "light"
  const Dark: string := "dark"
  /** The key the preference is saved under. */
  const StorageKey: string := "theme"
  /** Classes the document effect adds for a smooth change. */
  const TransitionClasses: set<string> := {"transition-colors", "duration-300"}

  predicate IsTheme(t: string)
  {
    t == Light || t == Dark
  }

  /** The system setting's theme: dark when it prefers dark, light otherwise. */
  function SystemTheme(prefersDark: bool): (t: string)
    ensures IsTheme(t) && (t == Dark <==> prefersDark)
  {
    if prefersDark then Dark else Light
  }

  /**
   * The first theme: a saved value that is present and not empty is used as it is (it
   * is not checked to be a theme); otherwise the system setting decides.
   */
  function InitialTheme(saved: Option<string>, prefersDark: bool): (t: string)
    ensures t != ""
    ensures saved.Some? && saved.value != "" ==> t == saved.value
    ensures saved.None? || saved.value == "" ==> IsTheme(t) && (t == Dark <==> prefersDark)
  {
    if saved.Some? && saved.value != "" then saved.value else SystemTheme(prefersDark)
  }

  /** The toggle: light becomes dark, anything else becomes light. */
  function Toggled(t: string): (r: string)
    ensures IsTheme(r)
    ensures IsTheme(t) ==> r != t
  {
    if t == Light then Dark else Light
  }

  /** Toggling twice from light or dark comes back to where it started. */
  lemma ToggleInvolution(t: string)
    requires IsTheme(t)
    ensures Toggled(Toggled(t)) == t
  {
  }

  /** From a saved value that is not a theme, the first toggle lands on light and the second on dark, never back on it. */
  lemma ToggleTwiceFromOtherValue(t: string)
    requires !IsTheme(t)
    ensures Toggled(t) == Light && Toggled(Toggled(t)) == Dark && Toggled(Toggled(t)) != t
  {
  }

  /** What a component gets from `useTheme`: the context, or the error it throws outside a provider. */
  datatype ContextLookup<C> = Context(value: C) | Thrown(message: string)

  function UseTheme<C>(ctx: Option<C>): (r: ContextLookup<C>)
    ensures r.Thrown? <==> ctx.None?
    ensures r.Thrown? ==> r.message == "useTheme must be used within a ThemeProvider"
    ensures r.Context? ==> r.value == ctx.value
  {
    match ctx
    case None => Thrown("useTheme must be used within a ThemeProvider")
    case Some(c) => Context(c)
  }

  /** The saved value as `getItem` reads it: `null` when the key is absent. */
  function Saved(storage: map<string, string>): (r: Option<string>)
    ensures r.Some? <==> StorageKey in storage
    ensures r.Some? ==> r.value == storage[StorageKey]
  {
    if StorageKey in storage then Some(storage[StorageKey]) else None
  }

  class ThemeProvider {
    var theme: string
    /** The root element's class list. */
    var classList: set<string>
    /** The browser's local storage. */
    var storage: map<string, string>

    /**
     * The root element carries the current theme and no other of light and dark, with
     * the transition classes, and the theme is saved.
     */
    predicate Synced()
      reads this
    {
      && theme in classList
      && (Light in classList <==> theme == Light)
      && (Dark in classList <==> theme == Dark)
      && TransitionClasses <= classList
      && Saved(storage) == Some(theme)
    }

    predicate Valid()
      reads this
    {
      theme != "" && Synced()
    }

    /**
     * Mounting: the first theme from storage and the system setting, then the document
     * effect's first run.
     */
    constructor (classes: set<string>, store: map<string, string>, prefersDark: bool)
      ensures theme == InitialTheme(Saved(store), prefersDark)
      ensures classList == classes - {Light, Dark} + TransitionClasses + {theme}
      ensures storage == store[StorageKey := theme]
      ensures Valid()
    {
      theme := InitialTheme(Saved(store), prefersDark);
      classList := classes;
      storage := store;
      new;
      SyncDocument();
    }

    /**
     * The document effect: add the transition classes, remove light and dark, add the
     * theme, save the theme. Classes other than light and dark stay as they were.
     */
    method SyncDocument()
      modifies this
      ensures theme == old(theme)
      ensures classList == old(classList) - {Light, Dark} + TransitionClasses + {theme}
      ensures storage == old(storage)[StorageKey := theme]
      ensures Synced()
    {
      classList := classList + TransitionClasses;
      classList := classList - {Light, Dark};
      classList := classList + {theme};
      storage := storage[StorageKey := theme];
    }

    /**
     * `setTheme(t)` followed by the document effect. React bails out of a state update to
     * the value already held, so the `[theme]` effect runs only when `t` is a new theme;
     * then the document and storage follow it. Setting the current theme changes nothing.
     */
    method SetTheme(t: string)
      requires IsTheme(t)
      modifies this
      ensures theme == t
      ensures t != old(theme) ==>
        classList == old(classList) - {Light, Dark} + TransitionClasses + {t}
        && storage == old(storage)[StorageKey := t]
      ensures t == old(theme) ==> classList == old(classList) && storage == old(storage)
      ensures t != old(theme) || old(Valid()) ==> Valid()
    {
      if t != theme {
        theme := t;
        SyncDocument();
      }
    }

    /** `toggleTheme` followed by the document effect. */
    method ToggleTheme()
      modifies this
      ensures theme == Toggled(old(theme))
      ensures classList == old(classList) - {Light, Dark} + TransitionClasses + {theme}
      ensures storage == old(storage)[StorageKey := theme]
      ensures Valid()
    {
      SetTheme(Toggled(theme));
    }

    /**
     * The system-setting listener: it follows the new setting only when no theme is
     * saved (the saved value is absent or empty). Once the document effect has run a theme
     * is always saved, so on a mounted provider the listener changes nothing.
     */
    method OnSystemChange(prefersDark: bool)
      modifies this
      ensures Saved(old(storage)).None? || Saved(old(storage)) == Some("") ==>
        theme == SystemTheme(prefersDark)
      ensures (Saved(old(storage)).None? || Saved(old(storage)) == Some(""))
              && SystemTheme(prefersDark) != old(theme) ==>
        classList == old(classList) - {Light, Dark} + TransitionClasses + {theme}
        && storage == old(storage)[StorageKey := theme]
      ensures SystemTheme(prefersDark) == old(theme) ==>
        theme == old(theme) && classList == old(classList) && storage == old(storage)
      ensures Saved(old(storage)).Some? && Saved(old(storage)) != Some("") ==>
        theme == old(theme) && classList == old(classList) && storage == old(storage)
      ensures old(Valid()) ==> theme == old(theme) && classList == old(classList) && storage == old(storage)
    {
      var saved := Saved(storage);
      if saved.None? || saved.value == "" {
        SetTheme(SystemTheme(prefersDark));
      }
    }
  }
}
