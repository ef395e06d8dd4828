# Solatku: the logic under the prayer-time views, in Dafny

Solatku is an Angular web application that shows Malaysian prayer times for a
JAKIM zone. Most of it binds HTTP responses and browser storage to templates.
This project models the small pieces of real logic that sit under those views:

- the `countdown` pipe: a one-second tick stream counting a duration down to
  zero, splitting each remaining value into hours, minutes and seconds,
  choosing singular or plural unit words, deciding which fields are shown, and
  firing a completion signal on zero (`countdown.dfy`);
- `ZoneService`: the URL choice of `getZones`, grouping the zone directory by
  state for the zone picker, and finding a district's JAKIM code
  (`zone.dfy`);
- `PrayerTimeTableComponent.filterPrayerTimes` up to its final sort, and
  `getPrayerName`: the day's record becomes named times, `hijri` and `day`
  are dropped, Subuh becomes Imsak ten minutes earlier (`prayer_table.dfy`);
- `DateFilterService.epochToJsDate` and `splitHijri` (`date_filter.dfy`);
- the `epochTo12Hrs` pipe: a 24-hour clock time rendered as `h:m AM/PM`
  (`epoch_to_date.dfy`);
- `ThemeService`: a day/night flag initialised from storage key `theme`,
  toggled and written back, and exposed as `'onDark'` or null (`theme.dfy`);
- `TranslatorService`: the interface language, kept under storage key `lang`
  and handed to the translation library (`translator.dfy`).

Supporting modules give the JavaScript semantics these rely on:
`decimal.dfy` (the decimal text of a number and the value of a digit string),
`jsstring.dfy` (`String.prototype.split` with a string separator,
`Array.prototype.join`, and `Number(s)` on strings), `storage.dfy`
(`localStorage` as a class over a `map<string, string>`, shared by the theme
and language services) and `wrappers.dfy` (`Option` for `null`/`undefined`).

The pure parts are functions and lemmas. The parts that change state in the
source are imperative here. The countdown is a loop over tick indices that
appends to an output sequence. Grouping and the JAKIM-code search are loops
over a map and a local variable. The theme and language services are classes
whose methods update their fields and the shared storage object.

Two facts about the code shape the model:

- `filterPrayerTimes` calls `dateFilter.unixToDate`, which
  `DateFilterService` (src/app/shared/services/date-filter.service.ts) does
  not define. It is modelled as `epochToJsDate`
  (seconds times 1000).
- `splitHijri` raises no error on malformed input. A piece holding a
  character that no numeric literal contains, such as 'z', gives NaN, and an
  empty piece gives 0, as JavaScript's `Number` does.

## Model

| member | source | states |
|---|---|---|
| Countdown.Transform | src/app/shared/pipes/countdown.pipe.ts:10-24 | for duration d ≥ 0 the values are exactly d, d-1, …, 0 (d+1 of them, none negative); for d < 0 nothing is emitted; the completion signal fires exactly once for d ≥ 0, right before the text for 0, and never for d < 0; each emitted text is the rendering of its value |
| Countdown.JsRem | src/app/shared/pipes/countdown.pipe.ts:29-30 | JavaScript's `%` by a positive divisor: a − r is a whole multiple of b, and r lies in [0, b) for a non-negative dividend and in (-b, 0] for a negative one, which fixes r as the truncated remainder |
| Countdown.TimePartsRecompose | src/app/shared/pipes/countdown.pipe.ts:26-32 | for v ≥ 0, hours ≥ 0, 0 ≤ minutes < 60, 0 ≤ seconds < 60 and hours*3600 + minutes*60 + seconds == v |
| Countdown.UnitKey | src/app/shared/pipes/countdown.pipe.ts:35-37 | a unit takes its singular key exactly when its part is ≤ 1 (zero included), and its plural key exactly when it is > 1 |
| Countdown.KeysForValue | src/app/shared/pipes/countdown.pipe.ts:26-37 | for v ≥ 0: plural hours exactly from 7200 s, plural minutes exactly when v mod 3600 ≥ 120, plural seconds exactly when v mod 60 ≥ 2 |
| Countdown.FormatTimeFields | src/app/shared/pipes/countdown.pipe.ts:47-58 | the rendering is the hours field only when hours > 0, the minutes field exactly when hours > 0 or minutes > 0, the seconds field always, and the "remaining" word last |
| Countdown.ShownFieldsForValue | src/app/shared/pipes/countdown.pipe.ts:47-58 | for v ≥ 0, hours are shown exactly when v ≥ 3600 and minutes exactly when v ≥ 60 |
| ZoneService.ZonesUrlDistinct | src/app/shared/services/zone.service.ts:22 | a missing or empty zone code asks for `zoneUri` itself; a non-empty code gives a different URL, and different codes give different URLs |
| ZoneService.GroupZoneByState | src/app/shared/services/zone.service.ts:42-55 | throws `TypeError` exactly when some zone's state is the name of an `Object.prototype` property (the lookup finds that truthy property, no list is created, and `push` fails); otherwise filling the per-state dictionary zone by zone and listing it in insertion order yields exactly the grouping function `GroupByState` |
| ZoneService.States | src/app/shared/services/zone.service.ts:44-49 | the group keys are pairwise distinct and are exactly the states some zone has |
| ZoneService.DistrictsOf | src/app/shared/services/zone.service.ts:44-49 | a state's district list is non-empty exactly when some zone has that state |
| ZoneService.GroupsDistinctAndNonEmpty | src/app/shared/services/zone.service.ts:44-54 | the groups have pairwise-distinct `negeri`, and none is empty |
| ZoneService.DistrictsOfMembers | src/app/shared/services/zone.service.ts:48 | a district is in a state's list exactly when some zone of that state produced it as `{jakimCode, name: daerah}` |
| ZoneService.ZonePlacement | src/app/shared/services/zone.service.ts:44-54 | every zone appears as its district in the group of its own state, and every group holds only districts of zones of that group's state |
| ZoneService.GroupingIsPermutation | src/app/shared/services/zone.service.ts:42-55 | the groups' districts, taken group by group, are the input's districts in some order: nothing lost, nothing duplicated |
| ZoneService.GroupSizesSum | src/app/shared/services/zone.service.ts:42-55 | the group sizes add up to the number of zones |
| ZoneService.StatesInFirstAppearanceOrder | src/app/shared/services/zone.service.ts:44-54 | the groups come in the order in which their states first appear among the zones |
| ZoneService.FirstIndexExtend | src/app/shared/services/zone.service.ts:44-47 | appending a zone does not move a known state's first appearance, and a new state first appears at the appended position |
| ZoneService.GetJakimCode | src/app/shared/services/zone.service.ts:63-73 | the nested search returns `LastCode` of the districts in group-then-district order: every match overwrites, `''` when none matches |
| ZoneService.LastCodeIsLastMatch | src/app/shared/services/zone.service.ts:63-73 | `''` when no district has the name; otherwise the code of a matching district after which no district has that name |
| ZoneService.JakimCodeOfUniqueDistrict | src/app/shared/services/zone.service.ts:42-73 | when a district name belongs to one zone only, looking it up in the grouped zones gives that zone's JAKIM code |
| PrayerTimeTable.GetPrayerName | src/app/pages/prayer-time-base/prayer-time-table/prayer-time-table.component.ts:57-62 | the enum value when it exists and is truthy (non-empty), null otherwise |
| PrayerTimeTable.FilterPrayerTimesAppend | src/app/pages/prayer-time-base/prayer-time-table/prayer-time-table.component.ts:35-47 | entry by entry in entry order: `hijri`/`day` and unnamed keys add nothing; a Subuh entry adds Imsak at value*1000 - 600000 ms and no Subuh; any other named entry adds its name and its converted time |
| PrayerTimeTable.NoSubuhShown | src/app/pages/prayer-time-base/prayer-time-table/prayer-time-table.component.ts:40-41 | no output entry is named Subuh |
| PrayerTimeTable.FilterPrayerTimesBound | src/app/pages/prayer-time-base/prayer-time-table/prayer-time-table.component.ts:35-47 | before sorting, the output has at most one time per entry other than `hijri` and `day` |
| PrayerTimeTable.ImsakTenMinutesBeforeSubuh | src/app/pages/prayer-time-base/prayer-time-table/prayer-time-table.component.ts:41 | for a representable Subuh time, Imsak is exactly 600000 ms before the Subuh instant, i.e. the date of Subuh - 600 s |
| DateFilter.NewDate | src/app/shared/services/date-filter.service.ts:19 | `new Date(ms)` is a valid date holding ms exactly when abs(ms) ≤ 8.64e15, and an invalid date otherwise |
| DateFilter.EpochToJsDateExact | src/app/shared/services/date-filter.service.ts:17-20 | a representable timestamp t gives the instant exactly t*1000 ms after the epoch, which reads back to t |
| DateFilter.EpochToJsDateOutOfRange | src/app/shared/services/date-filter.service.ts:17-20 | a timestamp beyond the `Date` range gives an invalid date |
| DateFilter.EpochToJsDateMonotone | src/app/shared/services/date-filter.service.ts:17-20 | later timestamps give strictly later dates |
| DateFilter.SplitHijri | src/app/shared/services/date-filter.service.ts:63-65 | one number per piece of the split |
| DateFilter.SplitHijriLength | src/app/shared/services/date-filter.service.ts:64 | with a non-empty splitter, the count is the number of splitter occurrences plus one; with an empty one, one per character |
| DateFilter.SplitHijriOfDigitPieces | src/app/shared/services/date-filter.service.ts:64 | digit-only pieces of value at most 2^53, joined with a splitter not starting with a digit, split back into their decimal values; an empty piece gives 0 |
| DateFilter.SplitHijriRoundTrip | src/app/shared/services/date-filter.service.ts:64 | the decimal texts of integers in 0..2^53, joined with such a splitter, split back into the same integers |
| DateFilter.SplitHijriExample | src/app/shared/services/date-filter.service.ts:64 | "1446-03-15" split on "-" gives 1446, 3 and 15 |
| DateFilter.SplitHijriNonNumericPiece | src/app/shared/services/date-filter.service.ts:64 | a piece holding a character no numeric literal contains (a letter such as 'z') gives NaN, without an error |
| JsString.SplitJoin | src/app/shared/services/date-filter.service.ts:64 | `split` undoes `join` when no piece contains the separator's first character |
| JsString.JoinSplit | src/app/shared/services/date-filter.service.ts:64 | `join` undoes `split` on a non-empty separator |
| JsString.FindFromFirst | src/app/shared/services/date-filter.service.ts:64 | the separator search that `split` uses reports the leftmost occurrence at or after its start, and none only when there is none |
| JsString.SplitPiecesFree | src/app/shared/services/date-filter.service.ts:64 | no piece of a split on a non-empty separator contains that separator, since `split` cuts at leftmost occurrences |
| JsString.SplitCount | src/app/shared/services/date-filter.service.ts:64 | a split on a non-empty separator has one piece more than there are occurrences of it |
| JsString.NumberOfDecimal | src/app/shared/services/date-filter.service.ts:64 | `Number` reads back an integer in 0..2^53 from its decimal text, whatever zeros precede it |
| JsString.NumberOfEmpty | src/app/shared/services/date-filter.service.ts:64 | `Number("")` is 0 |
| EpochToDate.Meridiem | src/app/shared/pipes/epoch-to-date.pipe.ts:17 | 'PM' exactly when the hour is ≥ 12, 'AM' exactly when it is < 12 |
| EpochToDate.DisplayHour | src/app/shared/pipes/epoch-to-date.pipe.ts:18 | the shown hour is in 1..12 and congruent to the 24-hour hour mod 12 |
| EpochToDate.MidnightAndNoon | src/app/shared/pipes/epoch-to-date.pipe.ts:17-21 | hour 0 renders as 12 AM and hour 12 as 12 PM |
| EpochToDate.DisplayDeterminesHour | src/app/shared/pipes/epoch-to-date.pipe.ts:17-18 | the shown hour and meridiem together determine the 24-hour hour |
| EpochToDate.UnpaddedMinutes | src/app/shared/pipes/epoch-to-date.pipe.ts:21 | 9:05 renders as "9:5 AM": minutes are not padded |
| EpochToDate.ClockReadBack | src/app/shared/pipes/epoch-to-date.pipe.ts:10-23 | the rendering `h:m AM/PM` reads back to the 24-hour hour and minute it was made from |
| Theme.StoredIsNight | src/app/shared/services/theme.service.ts:32-34 | night exactly when the stored theme is "night"; missing or any other value means day |
| Theme.ToggledValue | src/app/shared/services/theme.service.ts:15-19 | the stored value is "night" exactly when the flag before the toggle was day, and is always "day" or "night" |
| Theme.ThemeService.constructor | src/app/shared/services/theme.service.ts:9 | the flag starts as night exactly when stored 'theme' is "night" |
| Theme.ThemeService.ToggleTheme | src/app/shared/services/theme.service.ts:15-19 | negates the flag, writes only the 'theme' key, and leaves the stored theme agreeing with the new flag, so re-initialising reproduces the state |
| Theme.ThemeService.CurrentTheme | src/app/shared/services/theme.service.ts:24-26 | 'onDark' exactly when the flag is night, null otherwise |
| Theme.ToggleTwiceStorage | src/app/shared/services/theme.service.ts:15-19 | two toggles store the theme the original flag stands for, so they restore the stored items exactly when that theme was already stored |
| Theme.ToggleTwice | src/app/shared/services/theme.service.ts:15-19 | toggling twice restores the flag and, for a stored "day" or "night" in sync with it, the stored items |
| Translator.IsSupported | src/app/shared/services/translator.service.ts:33 | a code passes exactly when it is 'ms' or 'en' |
| Translator.StoredText | src/app/shared/services/translator.service.ts:20 | a defined language is stored as itself (an undefined one as "undefined") |
| Translator.TranslatorService.constructor | src/app/shared/services/translator.service.ts:10-12 | the service starts from the library's state and runs `initLanguage` |
| Translator.TranslatorService.InitLanguage | src/app/shared/services/translator.service.ts:15-26 | with no stored 'lang' (or an empty one), the library default is stored and the active language is left alone; otherwise the stored one, unchecked, becomes default and active; no other key is written |
| Translator.TranslatorService.ChangeLanguage | src/app/shared/services/translator.service.ts:32-40 | an empty or unknown code raises the error notice and changes neither storage nor the active language; 'ms' or 'en' is stored under 'lang' and becomes active, after which `getSetLanguage` returns it; no other key is written |
| Translator.TranslatorService.GetSetLanguage | src/app/shared/services/translator.service.ts:46-48 | stored 'lang' when it is non-empty, the library default otherwise |

## Left out

- Next-prayer scheduling, day rollover and Hijri/Julian arithmetic: `SolatService` (src/app/shared/services/solat.service.ts) is a stub and `calcNextPrayer`, `getPrayerTimeViaDate`, `sortByPrayer` and `zone$` are defined in none of the modelled files, so there is nothing to model them against.
- The final `sortByPrayer` of `filterPrayerTimes`, and the `PrayerTimeName` enum (src/app/shared/enums/date.enum.ts is not part of this model): the name lookup is a `map<string, string>` parameter.
- `unixToDate`, called by `filterPrayerTimes`, is not part of this model; it is taken to be `epochToJsDate`.
- The wall-clock timing of `timer(0, 1000)` and the interleaving of `mergeMap(async …)`: ticks are loop indices, and a text is taken to be emitted in tick order.
- Countdown.Transform: the duration is an integer; a fractional duration (never reaching exactly 0, so never completing) is not modelled.
- `getTranslation` (ngx-translate `get` read through a synchronous subscribe) is a foreign call: the countdown takes the translation as a function parameter.
- HTTP fetching and error toasts of `getZones`, and the API URI getters: plumbing around the URL choice that is modelled.
- ZoneService.GroupZoneByState: JavaScript lists integer-like object keys first in `Object.entries`; the model assumes state names are not integer-like, so the groups follow first appearance. (State names of `Object.prototype` properties are modelled: they throw `TypeError`.)
- JsString.ToNumber: `Number` returns an IEEE double. It is evaluated only for the empty string and digit-only strings of value at most 2^53, which convert exactly. Larger digit strings, which JavaScript rounds (to `Infinity` beyond the double range), give the value `Other`. So do strings with a sign, white space, a fraction, an exponent, a radix prefix or `Infinity`. The model does not evaluate `Other`.
- Strings are sequences of Unicode code points, not of UTF-16 code units: `split("")` on a character outside the Basic Multilingual Plane gives one piece here and two in JavaScript, and lengths and indices count code points.
- `hijri-converter` (`toGregorian`, `toHijri`) and `DatePipe` formatting in `DateFilterService`: foreign libraries.
- The local-timezone `Date` accessors `getHours`/`getMinutes` of the `epochTo12Hrs` pipe: the pipe's hour (0..23) and minute (0..59) are inputs.
- `addLangs` in `initLanguage`: it only extends the library's list of known languages, which nothing modelled reads.
- Theme.ToggleTwice: restores the stored items only when the stored theme was "day" or "night"; any other stored text is replaced by "day" (Theme.ToggleTwiceStorage states the exact condition).
- The broadcast side of the `isNightTheme` subject (`isNightTheme$` subscribers): only its current value is modelled.
- Component glue (dialogs, subscriptions, `ngOnInit` loading, change detection, navbar, zone switcher, notifications, footer, app module) and the build-time script `mynode.js`.
