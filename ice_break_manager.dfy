/** The state of the ice-break manager screen and the effects of its actions: the add
    button, the generate button (code rendering and arming the tick), one tick of the
    repeating timer, and the two paths that add scanned entries. */
module IceBreakManager {
  import opened Wrappers
  import opened TextOrder
  import opened TimeFormat
  import opened TickMatcher

  /** The generate button does nothing but show its error below this many entries. */
  const MinTimesForCode: nat := 3

  /** One object delivered by the capture session: a machine-readable code, whose string
      value may be missing, or some other kind of metadata. */
  datatype MetadataObject = MachineReadableCode(stringValue: Option<string>) | OtherMetadata

  /** Appending a canonical entry to a sorted canonical schedule and sorting again gives a
      sorted canonical schedule, in time-of-day order, with the entry inserted in its place. */
  lemma AddKeepsSchedule(times: seq<string>, entry: string)
    requires Sorted(times) && forall k :: 0 <= k < |times| ==> IsCanonical(times[k])
    requires IsCanonical(entry)
    ensures Sorted(Sort(times + [entry]))
    ensures forall k :: 0 <= k < |Sort(times + [entry])| ==> IsCanonical(Sort(times + [entry])[k])
    ensures InTimeOfDayOrder(Sort(times + [entry]))
    ensures Sort(times + [entry]) == Insert(times, entry)
  {
    var r := Sort(times + [entry]);
    SortCorrect(times + [entry]);
    SortAppendIsInsert(times, entry);
    forall k | 0 <= k < |r| ensures IsCanonical(r[k]) {
      assert r[k] in multiset(times + [entry]);
      assert r[k] in times + [entry];
    }
    SortedIsTimeOfDayOrder(r);
  }

  class IceBreakManagerView {
    /** The schedule, kept sorted as text. */
    var iceBreakTimes: seq<string>
    var showErrorMessage: bool
    /** The list that the displayed code image encodes, if one has been rendered. */
    var qrCodeTimes: Option<seq<string>>
    /** Repeating one-second tick timers started so far. Each generate press starts one
        more; the generate action never stops an earlier one. */
    var tickTimers: nat
    /** Entries received from scanned codes: append-only, never sorted. */
    var scannedIceBreakTimes: seq<string>

    /** Every entry the add button stores is canonical, and the list stays sorted. */
    ghost predicate Valid()
      reads this
    {
      && Sorted(iceBreakTimes)
      && forall k :: 0 <= k < |iceBreakTimes| ==> IsCanonical(iceBreakTimes[k])
    }

    constructor ()
      ensures Valid()
      ensures iceBreakTimes == [] && scannedIceBreakTimes == []
      ensures !showErrorMessage && qrCodeTimes == None && tickTimers == 0
    {
      iceBreakTimes := [];
      showErrorMessage := false;
      qrCodeTimes := None;
      tickTimers := 0;
      scannedIceBreakTimes := [];
    }

    /** The add button: stores the picked time as `HH:MM`, re-sorts, clears the error. */
    method AddIceBreakTime(hour: nat, minute: nat)
      requires Valid()
      requires hour < HoursPerDay && minute < MinutesPerHour
      modifies this
      ensures Valid()
      ensures iceBreakTimes == Sort(old(iceBreakTimes) + [FormatTime(hour, minute)])
      ensures iceBreakTimes == Insert(old(iceBreakTimes), FormatTime(hour, minute))
      ensures |iceBreakTimes| == |old(iceBreakTimes)| + 1
      ensures multiset(iceBreakTimes) == multiset(old(iceBreakTimes)) + multiset{FormatTime(hour, minute)}
      ensures InTimeOfDayOrder(iceBreakTimes)
      ensures !showErrorMessage
      ensures qrCodeTimes == old(qrCodeTimes) && tickTimers == old(tickTimers)
      ensures scannedIceBreakTimes == old(scannedIceBreakTimes)
    {
      var formattedTime := FormatTime(hour, minute);
      AddKeepsSchedule(iceBreakTimes, formattedTime);
      var appended := iceBreakTimes + [formattedTime];
      iceBreakTimes := Sort(appended);
      showErrorMessage := false;
    }

    /** Rendering the code image for `iceBreakTimes`. `renderOk` says whether encoding and
        the image pipeline produced an image; when they did not, the old image stays. */
    method GenerateQRCode(renderOk: bool)
      modifies this`qrCodeTimes
      ensures qrCodeTimes == if renderOk then Some(iceBreakTimes) else old(qrCodeTimes)
    {
      if renderOk {
        qrCodeTimes := Some(iceBreakTimes);
      }
    }

    /** Starts one more repeating one-second timer whose closure runs `Tick`. */
    method ScheduleIceBreakSound()
      modifies this`tickTimers
      ensures tickTimers == old(tickTimers) + 1
    {
      tickTimers := tickTimers + 1;
    }

    /** The generate button: with at least three entries, renders the code, clears the
        error and arms the tick; with fewer, only shows the error. */
    method GenerateButton(renderOk: bool)
      modifies this
      ensures iceBreakTimes == old(iceBreakTimes) && scannedIceBreakTimes == old(scannedIceBreakTimes)
      ensures |iceBreakTimes| >= MinTimesForCode ==>
        && !showErrorMessage
        && tickTimers == old(tickTimers) + 1
        && qrCodeTimes == (if renderOk then Some(iceBreakTimes) else old(qrCodeTimes))
      ensures |iceBreakTimes| < MinTimesForCode ==>
        showErrorMessage && tickTimers == old(tickTimers) && qrCodeTimes == old(qrCodeTimes)
    {
      if |iceBreakTimes| >= MinTimesForCode {
        GenerateQRCode(renderOk);
        showErrorMessage := false;
        ScheduleIceBreakSound();
      } else {
        showErrorMessage := true;
        return;
      }
    }

    /** One run of the tick closure at `now` (seconds since today's midnight): scans the
        entries in list order, skips those that do not parse, and stops at the first one
        whose target lies in `0 ..< MatchWindow` seconds from `now`. The result is the
        position of the entry that calls `playSound`, or `None` when the tick is silent. */
    method Tick(now: int) returns (fired: Option<nat>)
      ensures fired == FirstMatch(iceBreakTimes, now)
    {
      fired := None;
      var i := 0;
      while i < |iceBreakTimes|
        invariant 0 <= i <= |iceBreakTimes|
        invariant fired == None
        invariant forall j :: 0 <= j < i ==> !Fires(iceBreakTimes[j], now)
      {
        var iceBreakTime := iceBreakTimes[i];
        var parsed := ParseTime(iceBreakTime);
        if parsed.None? {
          i := i + 1;
          continue;
        }
        var timeDifference := SecondsOfDay(parsed.value) - now;
        if 0 <= timeDifference < MatchWindow {
          fired := Some(i);
          break;
        }
        i := i + 1;
      }
    }

    /** Adds the entries decoded from a scanned string, in order, or nothing when the
        string does not decode. `decode` stands for the JSON decoder of a string array. */
    method DidFindIceBreakTimes(scannedString: string, decode: string -> Option<seq<string>>)
      modifies this`scannedIceBreakTimes
      ensures scannedIceBreakTimes ==
        match decode(scannedString)
        case Some(scannedTimes) => old(scannedIceBreakTimes) + scannedTimes
        case None => old(scannedIceBreakTimes)
    {
      var decoded := decode(scannedString);
      if decoded.Some? {
        scannedIceBreakTimes := scannedIceBreakTimes + decoded.value;
      }
    }
  }

  /** The capture session's delegate. Its view's binding writes through to the manager's
      scanned list, which `parent` stands for. */
  class Coordinator {
    var parent: IceBreakManagerView

    constructor (parent: IceBreakManagerView)
      ensures this.parent == parent
    {
      this.parent := parent;
    }

    /** Handles the objects of one capture callback: only the first one is looked at;
        when it is a machine-readable code with a string value, the device vibrates and the
        raw string is appended. `vibrated` tells whether the vibration was triggered. */
    method MetadataOutput(metadataObjects: seq<MetadataObject>) returns (vibrated: bool)
      modifies parent`scannedIceBreakTimes
      ensures vibrated <==>
        |metadataObjects| > 0 && metadataObjects[0].MachineReadableCode? && metadataObjects[0].stringValue.Some?
      ensures parent.scannedIceBreakTimes ==
        if vibrated then old(parent.scannedIceBreakTimes) + [metadataObjects[0].stringValue.value]
        else old(parent.scannedIceBreakTimes)
    {
      vibrated := false;
      if |metadataObjects| > 0 {
        var metadataObject := metadataObjects[0];
        if !metadataObject.MachineReadableCode? { return; }
        if metadataObject.stringValue.None? { return; }
        var stringValue := metadataObject.stringValue.value;
        vibrated := true;
        parent.scannedIceBreakTimes := parent.scannedIceBreakTimes + [stringValue];
      }
    }
  }

  /** The entries the add button stores for 14:05 and 9:00. */
  lemma FormatScenario()
    ensures FormatTime(14, 5) == "14:05" && FormatTime(9, 0) == "09:00"
  {
  }

  /** Adding a later entry, an earlier one and the later one again to an empty schedule
      orders them by time and keeps the duplicate. */
  lemma {:induction false} AddLaterEarlierLater(late: string, early: string)
    requires TextLeq(early, late) && !TextLeq(late, early)
    ensures Sort(Sort(Sort([] + [late]) + [early]) + [late]) == [early, late, late]
  {
    AddFirst(late);
    AddEarlier(late, early);
    AddLaterAgain(late, early);
  }

  lemma AddFirst(late: string)
    ensures Sort([] + [late]) == [late]
  {
    SortAppendIsInsert([], late);
    assert [] + [late] == [late];
  }

  lemma AddEarlier(late: string, early: string)
    requires TextLeq(early, late)
    ensures Sort([late] + [early]) == [early, late]
  {
    SortAppendIsInsert([late], early);
  }

  lemma AddLaterAgain(late: string, early: string)
    requires TextLeq(early, late) && !TextLeq(late, early)
    ensures Sort([early, late] + [late]) == [early, late, late]
  {
    TextLeqReflexive(late);
    assert [early, late][1..] == [late];
    assert Insert([late], late) == [late, late];
    SortAppendIsInsert([early, late], late);
  }

  /** Adding 14:05, 9:00, 14:05 in that order to an empty schedule gives
      ["09:00", "14:05", "14:05"]. */
  lemma AddScenario()
    ensures Sort(Sort(Sort([] + [FormatTime(14, 5)]) + [FormatTime(9, 0)]) + [FormatTime(14, 5)])
         == [FormatTime(9, 0), FormatTime(14, 5), FormatTime(14, 5)]
  {
    FormatOrder(TimeOfDay(9, 0), TimeOfDay(14, 5));
    FormatOrder(TimeOfDay(14, 5), TimeOfDay(9, 0));
    AddLaterEarlierLater(FormatTime(14, 5), FormatTime(9, 0));
  }

  /** The entries of the scenario parse back to their times. */
  lemma ParseScenario()
    ensures ParseTime("09:00") == Some(TimeOfDay(9, 0)) && ParseTime("14:05") == Some(TimeOfDay(14, 5))
  {
    FormatScenario();
  }

  /** Ticks against the scenario's schedule: 09:00:00 fires the first entry, 09:00:01 is
      silent because 09:00 has passed and 14:05 is hours away, and 14:04:30 fires the first
      "14:05" (the duplicate behind it is never reached). */
  lemma TickScenario()
    ensures FirstMatch(["09:00", "14:05", "14:05"], 9 * 3600) == Some(0)
    ensures FirstMatch(["09:00", "14:05", "14:05"], 9 * 3600 + 1) == None
    ensures FirstMatch(["09:00", "14:05", "14:05"], 14 * 3600 + 4 * 60 + 30) == Some(1)
  {
    ParseScenario();
    var s: seq<string> := ["09:00", "14:05", "14:05"];
    assert s[1..] == ["14:05", "14:05"] && s[1..][1..] == ["14:05"] && s[1..][1..][1..] == [];
  }
}
