/** What one tick of the repeating one-second timer decides: which schedule entry, if any,
    triggers the break sound. Time is whole seconds since today's midnight; `now` is taken
    once per tick and shared by every entry. */
module TickMatcher {
  import opened Wrappers
  import opened TextOrder
  import opened TimeFormat

  /** An entry fires while the time left until it is in `0 ..< MatchWindow` seconds. */
  const MatchWindow: nat := 60

  /** Entry `entry` parses with `HH:mm`, and its instant on today's date lies between
      `now` (inclusive) and `now + MatchWindow` (exclusive). */
  predicate Fires(entry: string, now: int)
    ensures Fires(entry, now) ==> IsCanonical(entry)
  {
    match ParseTime(entry)
    case None => false
    case Some(t) => 0 <= SecondsOfDay(t) - now < MatchWindow
  }

  /** The position of the first entry, in list order, that fires at `now`. */
  function FirstMatch(times: seq<string>, now: int): (r: Option<nat>)
    ensures r.Some? ==> r.value < |times| && Fires(times[r.value], now)
    ensures r.Some? ==> forall j :: 0 <= j < r.value ==> !Fires(times[j], now)
    ensures r.None? <==> forall j :: 0 <= j < |times| ==> !Fires(times[j], now)
  {
    if |times| == 0 then None
    else if Fires(times[0], now) then Some(0)
    else
      match FirstMatch(times[1..], now)
      case None => None
      case Some(i) => Some(i + 1)
  }

  /** An entry fires exactly for the 60 whole seconds `now` in `(target - 60, target]`. */
  lemma FiringWindow(entry: string, now: int)
    ensures Fires(entry, now) <==>
      (IsCanonical(entry) &&
       SecondsOfDay(ParseTime(entry).value) - MatchWindow < now <= SecondsOfDay(ParseTime(entry).value))
  {
  }

  /** The target of "00:00" is built on `now`'s own date, so within the day it fires only
      at `now == 0`: a tick must land exactly on midnight. */
  lemma MidnightEntryFiresOnlyAtMidnight(now: int)
    requires 0 <= now
    ensures Fires("00:00", now) <==> now == 0
  {
    assert ParseTime("00:00") == Some(TimeOfDay(0, 0)) by {
      assert FormatTime(0, 0) == "00:00";
    }
  }

  /** An entry whose target lies before `now` never fires. */
  lemma {:induction false} PassedEntriesNeverFire(times: seq<string>, now: int)
    requires FirstMatch(times, now).Some?
    ensures IsCanonical(times[FirstMatch(times, now).value])
    ensures now <= SecondsOfDay(ParseTime(times[FirstMatch(times, now).value]).value)
  {
  }

  /** Every entry that is in its window makes the tick fire, on that entry or an earlier one. */
  lemma {:induction false} AnyMatchingEntryFiresTheTick(times: seq<string>, now: int, k: nat)
    requires k < |times| && Fires(times[k], now)
    ensures FirstMatch(times, now).Some? && FirstMatch(times, now).value <= k
  {
  }

  /** An entry that does not parse is skipped and the scan goes on: putting one in front of
      the list only shifts the position of the match. */
  lemma {:induction false} UnparsableEntrySkipped(bad: string, times: seq<string>, now: int)
    requires !IsCanonical(bad)
    ensures FirstMatch([bad] + times, now) ==
      match FirstMatch(times, now) case None => None case Some(i) => Some(i + 1)
  {
    assert ([bad] + times)[1..] == times;
  }

  /** In a sorted schedule of canonical entries, the entry that fires is the earliest time of
      day among all entries inside the window. */
  lemma {:induction false} SortedScheduleFiresEarliest(times: seq<string>, now: int, k: nat)
    requires Sorted(times) && forall j :: 0 <= j < |times| ==> IsCanonical(times[j])
    requires k < |times| && Fires(times[k], now)
    ensures FirstMatch(times, now).Some?
    ensures SecondsOfDay(ParseTime(times[FirstMatch(times, now).value]).value) <=
            SecondsOfDay(ParseTime(times[k]).value)
  {
    var i := FirstMatch(times, now).value;
    if i < k {
      CanonicalTextOrder(times[i], times[k]);
    }
  }
}
