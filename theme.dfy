/**
 * ThemeService: a day/night flag, read from storage when the service is
 * created, flipped by `toggleTheme` and written back under the key 'theme'.
 */
module Theme {
  import opened Wrappers
  import opened BrowserStorage

  const ThemeKey := "theme"

  /** `getStoredTheme`: night exactly when the stored theme is "night"; absent or any other value means day. */
  function StoredIsNight(stored: Option<string>): (night: bool)
    ensures night <==> stored == Some("night")
  {
    stored.Some? && stored.value == "night"
  }

  /** What `toggleTheme` stores: it reads the flag before flipping it, so a night flag writes "day". */
  function ToggledValue(wasNight: bool): (value: string)
    ensures StoredIsNight(Some(value)) <==> !wasNight
    ensures value == "day" || value == "night"
  {
    if wasNight then "day" else "night"
  }

  class ThemeService {
    const storage: LocalStorage
    /** The value held by the `isNightTheme` subject. */
    var isNight: bool

    /** The flag agrees with what is stored, so a fresh service would start in the same theme. */
    predicate InSync()
      reads this, storage
    {
      isNight == StoredIsNight(storage.GetItem(ThemeKey))
    }

    /** The subject starts from the stored theme. */
    constructor(storage: LocalStorage)
      ensures this.storage == storage
      ensures isNight == StoredIsNight(storage.GetItem(ThemeKey))
      ensures InSync()
    {
      this.storage := storage;
      isNight := storage.GetItem(ThemeKey) == Some("night");
    }

    /** `toggleTheme`: flips the flag and stores the new theme under 'theme' only. */
    method ToggleTheme()
      modifies this, storage
      ensures isNight == !old(isNight)
      ensures storage.items == old(storage.items)[ThemeKey := ToggledValue(old(isNight))]
      ensures InSync()
    {
      var newTheme := isNight;
      isNight := !isNight;
      storage.SetItem(ThemeKey, if newTheme then "day" else "night");
    }

    /** `currentTheme`: 'onDark' at night, null by day. */
    function CurrentTheme(): (theme: Option<string>)
      reads this
      ensures theme == Some("onDark") <==> isNight
      ensures theme == None <==> !isNight
    {
      if isNight then Some("onDark") else None
    }
  }

  /**
   * Two toggles from a flag store the theme that flag stands for; so they give
   * back the stored items exactly when the stored theme was already "night"
   * for a night flag, or "day" for a day flag. Any other stored text becomes "day".
   */
  lemma ToggleTwiceStorage(items: map<string, string>, wasNight: bool)
    ensures var twice := items[ThemeKey := ToggledValue(wasNight)][ThemeKey := ToggledValue(!wasNight)];
      twice == items[ThemeKey := if wasNight then "night" else "day"]
      && (twice == items <==> ThemeKey in items && items[ThemeKey] == (if wasNight then "night" else "day"))
  {
    var twice := items[ThemeKey := ToggledValue(wasNight)][ThemeKey := ToggledValue(!wasNight)];
    if twice == items {
      assert twice[ThemeKey] == items[ThemeKey];
    }
  }

  /** Toggling twice brings the flag back, and the theme storage of a service that was in sync with a "day" or "night" entry. */
  method ToggleTwice(service: ThemeService)
    requires service.InSync()
    requires service.storage.GetItem(ThemeKey) == Some("day") || service.storage.GetItem(ThemeKey) == Some("night")
    modifies service, service.storage
    ensures service.isNight == old(service.isNight)
    ensures service.storage.items == old(service.storage.items)
  {
    service.ToggleTheme();
    service.ToggleTheme();
    ToggleTwiceStorage(old(service.storage.items), old(service.isNight));
  }
}
