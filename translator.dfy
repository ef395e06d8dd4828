/**
 * TranslatorService: the interface language, kept in storage under 'lang'
 * and handed to the translation library, whose default and active languages
 * are the two fields `defaultLang` and `currentLang`.
 */
module Translator {
  import opened Wrappers
  import opened BrowserStorage

  const LangKey := "lang"
  const DefaultLanguages: seq<string> := ["ms", "en"]

  /** An error toast: message and title. */
  datatype Notice = Notice(message: string, title: string)

  const InvalidLanguage := Notice("Invalid language selected", "Error")

  /** The check in `changeLanguage`: a non-empty code found in the list of languages. */
  function IsSupported(lang: string): (ok: bool)
    ensures ok <==> lang == "ms" || lang == "en"
  {
    lang != "" && lang in DefaultLanguages
  }

  /** What `setItem` stores for a language that may be undefined: JavaScript's `String(undefined)` is "undefined". */
  function StoredText(lang: Option<string>): (text: string)
    ensures lang.Some? ==> text == lang.value
  {
    match lang
    case Some(l) => l
    case None => "undefined"
  }

  /** A stored language counts only when it is present and non-empty (JavaScript truthiness). */
  predicate IsTruthy(stored: Option<string>) {
    stored.Some? && stored.value != ""
  }

  class TranslatorService {
    const storage: LocalStorage
    /** The library's `getDefaultLang()`, undefined until one is set. */
    var defaultLang: Option<string>
    /** The language the library currently uses. */
    var currentLang: Option<string>

    /** The service is created with the library's state as it is and runs `initLanguage`. */
    constructor(storage: LocalStorage, defaultLang: Option<string>, currentLang: Option<string>)
      modifies storage
      ensures this.storage == storage
      ensures var stored := old(storage.GetItem(LangKey));
        if IsTruthy(stored) then
          storage.items == old(storage.items) && this.defaultLang == stored && this.currentLang == stored
        else
          storage.items == old(storage.items)[LangKey := StoredText(defaultLang)]
          && this.defaultLang == defaultLang && this.currentLang == currentLang
    {
      this.storage := storage;
      this.defaultLang := defaultLang;
      this.currentLang := currentLang;
      new;
      InitLanguage();
    }

    /**
     * `initLanguage`: with no usable stored language, the library's default is
     * stored and the active language is left alone; otherwise the stored one,
     * unchecked, becomes both the default and the active language.
     */
    method InitLanguage()
      modifies this, storage
      ensures var stored := old(storage.GetItem(LangKey));
        if IsTruthy(stored) then
          storage.items == old(storage.items) && defaultLang == stored && currentLang == stored
        else
          storage.items == old(storage.items)[LangKey := StoredText(old(defaultLang))]
          && defaultLang == old(defaultLang) && currentLang == old(currentLang)
      ensures storage.items - {LangKey} == old(storage.items) - {LangKey}
    {
      var setLanguage := storage.GetItem(LangKey);
      if !IsTruthy(setLanguage) {
        storage.SetItem(LangKey, StoredText(defaultLang));
        return;
      }
      defaultLang := setLanguage;
      currentLang := setLanguage;
    }

    /**
     * `changeLanguage`: an empty or unknown code raises the error notice and
     * changes nothing; 'ms' or 'en' is stored under 'lang' and becomes the
     * active language.
     */
    method ChangeLanguage(lang: string) returns (notice: Option<Notice>)
      modifies this, storage
      ensures defaultLang == old(defaultLang)
      ensures !IsSupported(lang) ==>
        notice == Some(InvalidLanguage) && storage.items == old(storage.items) && currentLang == old(currentLang)
      ensures IsSupported(lang) ==>
        notice == None && storage.items == old(storage.items)[LangKey := lang] && currentLang == Some(lang)
      ensures IsSupported(lang) ==> GetSetLanguage() == Some(lang)
      ensures storage.items - {LangKey} == old(storage.items) - {LangKey}
    {
      if !IsSupported(lang) {
        return Some(InvalidLanguage);
      }
      storage.SetItem(LangKey, lang);
      currentLang := Some(lang);
      notice := None;
    }

    /** `getSetLanguage`: the stored language when it is non-empty, the library's default otherwise. */
    function GetSetLanguage(): (lang: Option<string>)
      reads this, storage
      ensures IsTruthy(storage.GetItem(LangKey)) ==> lang == Some(storage.items[LangKey])
      ensures !IsTruthy(storage.GetItem(LangKey)) ==> lang == defaultLang
    {
      var stored := storage.GetItem(LangKey);
      if IsTruthy(stored) then stored else defaultLang
    }
  }
}
