# IceTime ice-break scheduler, modelled in Dafny

IceTime is an iOS app. The user picks times of day for "ice breaks" (Eispausen) and
stores each one as an `HH:MM` string. Once at least three are stored, the app draws the
list as a QR code and starts a repeating one-second timer. On every tick the timer
compares the current time with each stored time and plays a break sound when one of them
is less than a minute away. A second list collects the strings read by scanning other
devices' codes.

This project models the logic of `IceTime/IceBreakManagerView.swift`:

- `TimeFormat` (time_format.dfy) covers the `%02d:%02d` formatting of the add button and the
  `HH:mm` parse of the tick. It proves the round trip in both directions. It also proves
  that comparing canonical entries as text is the same as comparing them by
  (hour, minute) and by instant of the day.
- `TextOrder` (text_order.dfy) covers the order and the sort behind `iceBreakTimes.sort()`.
  It proves the order total, transitive and antisymmetric. `Sort` is proved sorted and a
  permutation of its input, and a sorted permutation is proved unique. So any correct sort
  gives the same list as the one modelled here.
- `TickMatcher` (tick_matcher.dfy) is the specification of one tick. It covers the window
  test, first match in list order, skipped entries that do not parse, and the fact that a
  sorted schedule fires its earliest matching entry.
- `IceBreakManager` (ice_break_manager.dfy) holds the class `IceBreakManagerView`. Its
  fields are the view's `@State` variables, and its methods are the button actions, the
  tick closure and the decode helper. The class `Coordinator` is the camera delegate; it
  writes through the scanner's binding into the manager's scanned list.

Time is whole seconds since today's local midnight. An entry's target is
`(hour * 60 + minute) * 60`. The tick fires for an entry when `0 <= target - now < 60`.

Behaviour of the code worth knowing:

- Each press of the generate button with three or more entries starts one more repeating
  timer. The reference to the previous timer is overwritten, but the generate action does
  not stop it, so the timers add up. `tickTimers` counts the repeating timers started. It
  does not track how many are still running: `stop()` can invalidate one of them (see the
  audio line under "## Left out").
- An entry fires on every tick while `now` is in `(target - 60, target]`. That means up to
  60 consecutive ticks call `playSound`, once per tick rather than once per break
  (`TickMatcher.FiringWindow`).
- The target is built on `now`'s own date. For "00:00" the window within the day is the
  single instant `now == 0`, so a midnight break sounds only if a tick lands exactly on
  midnight, which in practice it does not (`TickMatcher.MidnightEntryFiresOnlyAtMidnight`).
- The capture delegate appends the raw string of the first code in each callback. It does
  not decode it. `didFindIceBreakTimes` appends whatever array of strings decodes, with no
  check that the strings are canonical times, and nothing in the app calls it.
- The schedule is sorted as text, not by (hour, minute). For the canonical strings that the
  add button produces, the two orders agree (`TimeFormat.FormatOrder`).

## Model

| member | source | states |
|---|---|---|
| `TimeFormat.TwoDigits` | IceTime/IceBreakManagerView.swift:48 | `%02d` of a value below 100 is two decimal digits whose value is the number, with a leading `0` below 10 |
| `TimeFormat.FormatTime` | IceTime/IceBreakManagerView.swift:47-48 | for hour 0-23 and minute 0-59 the stored entry has 5 characters with `:` in the middle, and parsing it with `HH:mm` gives back that hour and minute |
| `TimeFormat.ParseTime` | IceTime/IceBreakManagerView.swift:154-158 | a successful `HH:mm` parse always yields an hour below 24 and a minute below 60 |
| `TimeFormat.FormatOfParse` | IceTime/IceBreakManagerView.swift:154-158 | every string that parses is exactly the formatted form of the time it parses to (so parsing is injective, and formatting is the inverse on canonical strings) |
| `TimeFormat.FormatOrder` | IceTime/IceBreakManagerView.swift:48-50 | two formatted entries compare as text exactly as their times compare by (hour, minute) |
| `TimeFormat.TimeLeqSeconds` | IceTime/IceBreakManagerView.swift:162-172 | (hour, minute) order is the order of the target instants on one day, and distinct times have distinct targets |
| `TimeFormat.CanonicalTextOrder` | IceTime/IceBreakManagerView.swift:48-50 | for any two canonical entries, text order agrees with the order of their targets in both directions |
| `TimeFormat.SortedIsTimeOfDayOrder` | IceTime/IceBreakManagerView.swift:49-50 | a text-sorted list of canonical entries never goes backwards in time of day |
| `TextOrder.TextLeqTotal` | IceTime/IceBreakManagerView.swift:50 | any two strings are comparable in the order `sort()` uses |
| `TextOrder.TextLeqTransitive` | IceTime/IceBreakManagerView.swift:50 | that order is transitive |
| `TextOrder.TextLeqAntisymmetric` | IceTime/IceBreakManagerView.swift:50 | strings that are each at most the other are equal |
| `TextOrder.Insert` | IceTime/IceBreakManagerView.swift:49-50 | inserting adds one element and keeps the multiset of elements plus the new one |
| `TextOrder.Sort` | IceTime/IceBreakManagerView.swift:50 | the sort keeps the length and the multiset of elements (duplicates kept) |
| `TextOrder.InsertSorted` | IceTime/IceBreakManagerView.swift:49-50 | inserting into a sorted list gives a sorted list |
| `TextOrder.SortCorrect` | IceTime/IceBreakManagerView.swift:50 | the sort's result is sorted and is a permutation of its input |
| `TextOrder.SortedPermutationUnique` | IceTime/IceBreakManagerView.swift:50 | two sorted permutations of one list are equal, so every correct sort gives the same result |
| `TextOrder.SortAppendIsInsert` | IceTime/IceBreakManagerView.swift:49-50 | appending to a sorted list and sorting again is inserting the new entry in its place |
| `IceBreakManager.AddKeepsSchedule` | IceTime/IceBreakManagerView.swift:47-52 | appending a canonical entry to a sorted canonical schedule and sorting gives a sorted, canonical schedule in time-of-day order |
| `IceBreakManager.IceBreakManagerView.constructor` | IceTime/IceBreakManagerView.swift:16-22 | both lists start empty, there is no error, no code image and no timer |
| `IceBreakManager.IceBreakManagerView.AddIceBreakTime` | IceTime/IceBreakManagerView.swift:47-52 | the new schedule is the sort of the old one plus the formatted entry: one longer, the same multiset plus the entry (duplicates kept), sorted, in time-of-day order; the error is cleared; nothing else changes |
| `IceBreakManager.IceBreakManagerView.GenerateQRCode` | IceTime/IceBreakManagerView.swift:182-205 | when rendering succeeds the image shows the current schedule; when it fails the previous image stays |
| `IceBreakManager.IceBreakManagerView.ScheduleIceBreakSound` | IceTime/IceBreakManagerView.swift:147-148 | one more repeating timer is running; none is stopped |
| `IceBreakManager.IceBreakManagerView.GenerateButton` | IceTime/IceBreakManagerView.swift:60-69 | with at least 3 entries the error is cleared, the code is rendered and one more timer is armed; with fewer the error is shown and no code, no timer and no list change happen |
| `IceBreakManager.IceBreakManagerView.Tick` | IceTime/IceBreakManagerView.swift:148-179 | the loop with its `continue` and `break` returns exactly the first entry in list order that fires at the one snapshot `now`, or none |
| `IceBreakManager.IceBreakManagerView.DidFindIceBreakTimes` | IceTime/IceBreakManagerView.swift:277-282 | on a successful decode all decoded entries are appended in order; on failure the list is unchanged |
| `IceBreakManager.Coordinator.constructor` | IceTime/IceBreakManagerView.swift:214-216 | the delegate writes to the given view's list |
| `IceBreakManager.Coordinator.MetadataOutput` | IceTime/IceBreakManagerView.swift:218-226 | only the first object is looked at; exactly one raw string is appended at the end, with a vibration, when it is a machine-readable code with a string value; otherwise nothing changes |
| `TimeFormat.SecondsOfDay` | IceTime/IceBreakManagerView.swift:162-170 | the target rebuilt from the entry's hour and minute on today's date lies within the day and on a whole minute |
| `TextOrder.TextLeq` | IceTime/IceBreakManagerView.swift:50 | the String order `sort()` uses; a prefix never comes after the longer string |
| `TickMatcher.Fires` | IceTime/IceBreakManagerView.swift:172-174 | the window test `0..<60 ~= timeDifference`; only an entry that parses can fire |
| `TickMatcher.MidnightEntryFiresOnlyAtMidnight` | IceTime/IceBreakManagerView.swift:162-174 | for `now` in the day, "00:00" fires exactly when `now == 0` |
| `TickMatcher.FirstMatch` | IceTime/IceBreakManagerView.swift:153-177 | the result is the least position whose entry fires, and it is none exactly when no entry fires |
| `TickMatcher.FiringWindow` | IceTime/IceBreakManagerView.swift:172-174 | an entry fires exactly when it parses and `now` lies in `(target - 60, target]` |
| `TickMatcher.PassedEntriesNeverFire` | IceTime/IceBreakManagerView.swift:172-174 | the entry that fires parses and its target is not before `now` |
| `TickMatcher.AnyMatchingEntryFiresTheTick` | IceTime/IceBreakManagerView.swift:153-177 | if any entry is in its window, the tick fires on that entry or an earlier one |
| `TickMatcher.UnparsableEntrySkipped` | IceTime/IceBreakManagerView.swift:158-160 | an entry that does not parse is skipped without stopping the scan |
| `TickMatcher.SortedScheduleFiresEarliest` | IceTime/IceBreakManagerView.swift:153-177 | in a sorted canonical schedule, the entry that fires has the earliest target among all entries in the window |
| `IceBreakManager.FormatScenario` | IceTime/IceBreakManagerView.swift:48 | 14:05 and 9:00 are stored as "14:05" and "09:00" |
| `IceBreakManager.AddLaterEarlierLater` | IceTime/IceBreakManagerView.swift:49-50 | adding a later entry, an earlier one and the later one again gives earlier, later, later |
| `IceBreakManager.AddScenario` | IceTime/IceBreakManagerView.swift:47-52 | adding 14:05, 9:00, 14:05 gives the schedule "09:00", "14:05", "14:05" |
| `IceBreakManager.ParseScenario` | IceTime/IceBreakManagerView.swift:154-158 | "09:00" and "14:05" parse to 9:00 and 14:05 |
| `IceBreakManager.TickScenario` | IceTime/IceBreakManagerView.swift:153-177 | on that schedule, 09:00:00 fires the first entry, 09:00:01 fires nothing, and 14:04:30 fires the first "14:05" |

## Left out

- SwiftUI layout: pickers, lists, texts, the scanner sheet and the `isScanning` toggle (lines 24-122) are not modelled. The picker ranges 0..<24 and 0..<60 become the precondition of `AddIceBreakTime`.
- Code rendering and JSON encoding (lines 182-205) are library calls. Whether they produce an image is the `renderOk` parameter; the image itself is represented by the list it encodes.
- JSON decoding and UTF-8 conversion (lines 278-279) are library calls. They are the `decode` parameter of `DidFindIceBreakTimes`, a partial function from strings to string lists.
- Camera session setup (lines 233-273) and the vibration call (line 223) are hardware I/O. The vibration is reported by the result of `MetadataOutput`.
- Audio playback and the one-shot ten-second timer (`playSound` and `stop`, lines 124-145) are not modelled. `Tick` returns the position of the entry whose match calls `playSound`. The `timer` field is not modelled either, so one interaction is not captured: `stop()` invalidates whatever timer the field holds last. That is the one-shot timer, or a repeating timer started by a generate press made within ten seconds of a sound.
- Calendar, time zone, daylight saving time and `Double` intervals (lines 150-172) become integer seconds since local midnight. Sub-second parts of `now` are not modelled. Rebuilding the date (line 168) cannot fail in this model, so only entries that fail to parse are skipped.
- ParseTime: accepts only the canonical five-character form. It does not model the leniency `DateFormatter` may show on other shapes, such as a one-digit hour. Every entry of `iceBreakTimes` is canonical, so the schedule is unaffected.
- TextOrder.TextLeq: compares characters by code point. Swift compares strings by Unicode canonical equivalence. The two agree on the ASCII digits and colons that entries consist of.
- Console logging (the `print` calls at lines 61, 126, 138, 186, 192, 199 and 203) has no effect on the state and is not modelled.
- IceTime/IceTimeApp.swift (the app entry point and the notification permission request) is not part of this model.
