/** The browser's `localStorage`, one object shared by every service that reads or writes settings. */
module BrowserStorage {
  import opened Wrappers

  class LocalStorage {
    var items: map<string, string>

    constructor(initial: map<string, string>)
      ensures items == initial
    {
      items := initial;
    }

    /** `getItem`: the stored string, or null when the key is absent. */
    function GetItem(key: string): (value: Option<string>)
      reads this
      ensures value.Some? <==> key in items
      ensures value.Some? ==> value.value == items[key]
    {
      if key in items then Some(items[key]) else None
    }

    /** `setItem`: stores the value under the key and changes nothing else. */
    method SetItem(key: string, value: string)
      modifies this
      ensures items == old(items)[key := value]
    {
      items := items[key := value];
    }
  }
}
