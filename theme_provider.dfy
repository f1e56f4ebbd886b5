/**
 * The theme provider (app/components/ui/theme/ThemeProvider.tsx): a light or
 * dark theme chosen at mount from local storage or the system preference,
 * following the system preference until the user toggles, and persisted only
 * once set by hand.
 */
module ThemeProvider {
  import opened Wrappers

  /** The theme is the stored string as read, so a tampered entry such as "blue" is carried as it is. */
  type Theme = string

  const Dark: Theme := "dark"
  const Light: Theme := "light"

  /** `getThemeFromStorage`: the `theme` entry, or nothing when storage cannot be read. */
  function ThemeFromStorage(storageAvailable: bool, stored: Option<Theme>): (r: Option<Theme>)
    ensures r.Some? <==> storageAvailable && stored.Some?
    ensures r.Some? ==> r == stored
  {
    if storageAvailable then stored else None
  }

  /** A read entry counts as a saved theme when it is a non-empty string. */
  predicate IsSaved(saved: Option<Theme>)
  {
    saved.Some? && saved.value != ""
  }

  /**
   * `getSystemTheme`: dark when the `prefers-color-scheme: dark` query matches
   * or cannot be evaluated (None), light otherwise.
   */
  function SystemTheme(prefersDark: Option<bool>): (t: Theme)
    ensures t == Dark || t == Light
    ensures t == Light <==> prefersDark == Some(false)
  {
    match prefersDark {
      case None => Dark
      case Some(dark) => if dark then Dark else Light
    }
  }

  /** The functional update `toggleTheme` passes: dark becomes light, anything else dark. */
  function Flip(t: Theme): (r: Theme)
    ensures r == Dark || r == Light
    ensures r != t || (t != Dark && t != Light)
  {
    if t == Dark then Light else Dark
  }

  /** Flipping twice restores a light or dark theme; any other value ends as light. */
  lemma FlipTwice(t: Theme)
    ensures t == Dark || t == Light ==> Flip(Flip(t)) == t
    ensures t != Dark && t != Light ==> Flip(Flip(t)) == Light
  {
  }

  /** The values the effects depend on. */
  datatype View = View(theme: Theme, manual: bool, mounted: bool)

  /**
   * One provider, with the browser it runs in: `stored` is the `theme` entry
   * of local storage, `storageAvailable` whether storage can be used at all,
   * `prefersDark` the system preference (None when the media query cannot be
   * evaluated) and `applied` the theme class on the document element.
   */
  class Provider {
    const storageAvailable: bool
    var stored: Option<Theme>
    var prefersDark: Option<bool>
    var applied: Option<Theme>

    var theme: Theme          // `theme`
    var manual: bool          // `isManuallySet`
    var mounted: bool         // `mounted`

    function Current(): View
      reads this
    {
      View(theme, manual, mounted)
    }

    /**
     * The state between events: mounted with the theme applied to the document;
     * set by hand exactly when a saved theme is in storage, which then holds the
     * current theme; otherwise following the system preference.
     */
    predicate Valid()
      reads this
    {
      && mounted && applied == Some(theme)
      && (manual <==> IsSaved(ThemeFromStorage(storageAvailable, stored)))
      && (manual ==> stored == Some(theme))
      && (!manual ==> theme == SystemTheme(prefersDark))
    }

    /** The initial render: dark, not set by hand, not mounted, nothing applied yet. */
    constructor (storageAvailable: bool, stored: Option<Theme>, prefersDark: Option<bool>)
      ensures this.storageAvailable == storageAvailable && this.stored == stored && this.prefersDark == prefersDark
      ensures theme == Dark && !manual && !mounted && applied == None
    {
      this.storageAvailable := storageAvailable;
      this.stored := stored;
      this.prefersDark := prefersDark;
      applied := None;
      theme := Dark;
      manual := false;
      mounted := false;
    }

    /**
     * The detection effect: mark mounted, then take the saved theme and mark it
     * as set by hand, or else take the system theme and clear the mark. It also
     * (re-)registers the listener for system changes, whose closure sees the
     * `isManuallySet` of this render.
     */
    method DetectEffect()
      modifies this`mounted, this`theme, this`manual
      ensures mounted
      ensures var saved := ThemeFromStorage(storageAvailable, stored);
              && manual == IsSaved(saved)
              && theme == (if IsSaved(saved) then saved.value else SystemTheme(prefersDark))
    {
      mounted := true;
      var savedTheme := ThemeFromStorage(storageAvailable, stored);
      if IsSaved(savedTheme) {
        theme := savedTheme.value;
        manual := true;
      } else {
        theme := SystemTheme(prefersDark);
        manual := false;
      }
    }

    /** The apply effect: once mounted, put the theme class on the document and, when set by hand, save it. */
    method ApplyEffect(now: View)
      modifies this`applied, this`stored
      ensures applied == (if now.mounted then Some(now.theme) else old(applied))
      ensures stored == (if now.mounted && now.manual && storageAvailable then Some(now.theme) else old(stored))
    {
      if now.mounted {
        applied := Some(now.theme);
        if now.manual && storageAvailable {
          stored := Some(now.theme);
        }
      }
    }

    /**
     * One commit: the detection effect runs at mount and when `isManuallySet`
     * changed, the apply effect at mount and when any of its dependencies
     * changed; both read the values of the render being committed.
     */
    method Commit(prev: Option<View>)
      modifies this
      ensures var now := old(Current());
              var detect := prev.None? || prev.value.manual != now.manual;
              var apply := prev != Some(now);
              var saved := ThemeFromStorage(storageAvailable, old(stored));
              && mounted == (old(mounted) || detect)
              && manual == (if detect then IsSaved(saved) else old(manual))
              && theme == (if !detect then old(theme) else if IsSaved(saved) then saved.value else SystemTheme(prefersDark))
              && applied == (if apply && now.mounted then Some(now.theme) else old(applied))
              && stored == (if apply && now.mounted && now.manual && storageAvailable then Some(now.theme) else old(stored))
              && prefersDark == old(prefersDark)
    {
      var now := Current();
      if prev.None? || prev.value.manual != now.manual {
        DetectEffect();
      }
      if prev != Some(now) {
        ApplyEffect(now);
      }
    }

    /**
     * Mounting: a saved theme wins and counts as set by hand; otherwise the
     * system theme is used; either way it ends up applied to the document.
     */
    method Mount()
      requires theme == Dark && !manual && !mounted
      modifies this
      ensures Valid()
      ensures var saved := ThemeFromStorage(storageAvailable, old(stored));
              && manual == IsSaved(saved)
              && theme == (if IsSaved(saved) then saved.value else SystemTheme(prefersDark))
      ensures prefersDark == old(prefersDark)
    {
      var v0 := Current();
      Commit(None);
      var v1 := Current();
      Commit(Some(v0));
      var v2 := Current();
      Commit(Some(v1));
      assert Current() == v2;  // a further commit would find no dependency changed
    }

    /**
     * A change of the system preference: the listener follows it only while the
     * theme is not set by hand. A listener exists only when the media query
     * could be evaluated.
     */
    method SystemChange(matches: bool)
      requires Valid() && prefersDark.Some?
      modifies this
      ensures Valid()
      ensures theme == (if manual then old(theme) else SystemTheme(Some(matches)))
      ensures manual == old(manual) && stored == old(stored)
    {
      var v0 := Current();
      prefersDark := Some(matches);
      if !manual {
        theme := if matches then Dark else Light;
      }
      var v1 := Current();
      Commit(Some(v0));
      assert Current() == v1;
    }

    /**
     * `toggleTheme`: mark as set by hand and flip the theme. The mark re-runs
     * the detection effect, which reads storage before the flipped theme is
     * saved, so the commits swing through the system theme and back; with
     * storage unavailable nothing is ever saved, and the toggle ends reverted to
     * the system theme and not set by hand.
     */
    method Toggle()
      requires Valid()
      modifies this
      ensures Valid()
      ensures storageAvailable ==> theme == Flip(old(theme)) && manual && stored == Some(theme)
      ensures !storageAvailable ==> theme == SystemTheme(prefersDark) && !manual && stored == old(stored)
      ensures prefersDark == old(prefersDark)
    {
      var v0 := Current();
      manual := true;
      theme := Flip(theme);
      var v1 := Current();
      Commit(Some(v0));
      var v2 := Current();
      Commit(Some(v1));
      var v3 := Current();
      Commit(Some(v2));
      var v4 := Current();
      Commit(Some(v3));
      assert Current() == v4;
    }
  }
}
