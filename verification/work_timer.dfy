/** The work-order timer: active time between start and end, minus the time spent paused.
    The clock is a parameter `now`, used for both readings the source takes. Timestamps are
    integer milliseconds. */
module WorkTimer {
  import opened Wrappers
  import opened Text
  import opened Sorting

  datatype EventKind = Pause | Resume | OtherEvent(name: string)

  /** One row of the work order's time-tracking history. */
  datatype TimeEvent = TimeEvent(timestamp: int, event: EventKind)

  /** The comparator of the source's sort: ascending timestamps. */
  function ByTime(): (TimeEvent, TimeEvent) -> bool {
    (a: TimeEvent, b: TimeEvent) => a.timestamp <= b.timestamp
  }

  lemma ByTimeIsPreorder()
    ensures TotalPreorder(ByTime())
  {
  }

  /** The events in timestamp order; equal timestamps keep their recorded order, as
      JavaScript's stable sort does. */
  function SortedEvents(events: seq<TimeEvent>): (r: seq<TimeEvent>)
    ensures multiset(r) == multiset(events)
    ensures forall i, j :: 0 <= i < j < |r| ==> r[i].timestamp <= r[j].timestamp
    ensures forall x :: TiedWith(r, x, ByTime()) == TiedWith(events, x, ByTime())
  {
    ByTimeIsPreorder();
    var r := Sort(events, ByTime());
    assert forall x :: TiedWith(r, x, ByTime()) == TiedWith(events, x, ByTime()) by {
      forall x ensures TiedWith(r, x, ByTime()) == TiedWith(events, x, ByTime()) {
        SortStable(events, x, ByTime());
      }
    }
    r
  }

  /** The open pause, if any, and the paused time accumulated so far. */
  datatype PauseState = PauseState(pauseStart: Option<int>, totalPaused: int)

  /** One event: a pause opens a pause only when none is open; a resume closes the open pause
      and adds its length; everything else is ignored. */
  function Step(st: PauseState, e: TimeEvent): (r: PauseState)
    ensures e.event.Pause? && st.pauseStart.Some? ==> r == st
    ensures e.event.Resume? && st.pauseStart.None? ==> r == st
    ensures e.event.OtherEvent? ==> r == st
    ensures e.event.Pause? && st.pauseStart.None? ==> r == PauseState(Some(e.timestamp), st.totalPaused)
    ensures e.event.Resume? && st.pauseStart.Some?
            ==> r == PauseState(None, st.totalPaused + (e.timestamp - st.pauseStart.value))
  {
    match e.event
    case Pause => if st.pauseStart.None? then st.(pauseStart := Some(e.timestamp)) else st
    case Resume =>
      if st.pauseStart.Some? then PauseState(None, st.totalPaused + (e.timestamp - st.pauseStart.value))
      else st
    case OtherEvent(_) => st
  }

  function Replay(events: seq<TimeEvent>, st: PauseState): PauseState {
    if |events| == 0 then st else Replay(events[1..], Step(st, events[0]))
  }

  datatype TimerResult = TimerResult(
    elapsedMs: int,
    displayText: string,
    isPaused: bool,
    pausedReason: Option<string>)

  /** The status values that pause the timer whatever the events say. */
  predicate PausingStatus(status: string) {
    status == "awaiting_parts" || status == "waiting_purchase"
  }

  /** Paused time: closed pauses, plus an open pause counted up to `now` only while the order
      is not completed. */
  function TotalPausedMs(completedAt: Option<int>, events: seq<TimeEvent>, now: int): int {
    var st := Replay(SortedEvents(events), PauseState(None, 0));
    if st.pauseStart.Some? && completedAt.None? then st.totalPaused + (now - st.pauseStart.value)
    else st.totalPaused
  }

  /** `calculateWorkOrderElapsedTime`. The hour figure is floating point and left out. */
  function CalculateElapsedTime(
    startedAt: Option<int>, completedAt: Option<int>,
    events: seq<TimeEvent>, currentStatus: string, now: int): (r: TimerResult)
    ensures startedAt.None? ==> r == TimerResult(0, "Not started", false, None)
    ensures r.elapsedMs >= 0
    ensures startedAt.Some? ==>
      var active := completedAt.GetOr(now) - startedAt.value - TotalPausedMs(completedAt, events, now);
      r.elapsedMs == (if active > 0 then active else 0)
    ensures startedAt.Some? ==> r.displayText == FormatElapsedTime(r.elapsedMs)
    ensures startedAt.Some? ==>
      (r.isPaused <==> Replay(SortedEvents(events), PauseState(None, 0)).pauseStart.Some?
                        || PausingStatus(currentStatus))
    ensures r.pausedReason.Some? ==> r.isPaused && PausingStatus(currentStatus)
    ensures startedAt.Some? && currentStatus == "awaiting_parts" ==> r.pausedReason == Some("Awaiting Parts")
    ensures startedAt.Some? && currentStatus == "waiting_purchase" ==> r.pausedReason == Some("Waiting for Purchase")
  {
    match startedAt
    case None => TimerResult(0, "Not started", false, None)
    case Some(start) =>
      var end := completedAt.GetOr(now);
      var totalElapsedMs := end - start;
      var st := Replay(SortedEvents(events), PauseState(None, 0));
      var isPausedNow := st.pauseStart.Some? || PausingStatus(currentStatus);
      var totalPausedMs := TotalPausedMs(completedAt, events, now);
      var activeMs := if totalElapsedMs - totalPausedMs > 0 then totalElapsedMs - totalPausedMs else 0;
      var pausedReason :=
        if isPausedNow && currentStatus == "awaiting_parts" then Some("Awaiting Parts")
        else if isPausedNow && currentStatus == "waiting_purchase" then Some("Waiting for Purchase")
        else None;
      TimerResult(activeMs, FormatElapsedTime(activeMs), isPausedNow, pausedReason)
  }

  /** The replay invariant for events at or after `t`, none after the horizon: the paused
      time never exceeds the time elapsed since `lo`, and an open pause began in [lo, t]. */
  predicate PauseInvariant(st: PauseState, lo: int, t: int) {
    && st.totalPaused >= 0
    && (st.pauseStart.None? ==> st.totalPaused <= t - lo)
    && (st.pauseStart.Some? ==> lo <= st.pauseStart.value <= t && st.totalPaused <= st.pauseStart.value - lo)
  }

  lemma {:induction false} ReplayBounded(events: seq<TimeEvent>, st: PauseState, lo: int, t: int, hi: int)
    requires t <= hi
    requires forall i :: 0 <= i < |events| ==> t <= events[i].timestamp <= hi
    requires forall i, j :: 0 <= i < j < |events| ==> events[i].timestamp <= events[j].timestamp
    requires PauseInvariant(st, lo, t)
    ensures PauseInvariant(Replay(events, st), lo, hi)
  {
    if |events| > 0 {
      var t' := events[0].timestamp;
      ReplayBounded(events[1..], Step(st, events[0]), lo, t', hi);
    }
  }

  /** When every event lies between the start and the end of the order, the paused time is at
      most the elapsed time, so the clamp to zero never acts: the active time is exactly the
      elapsed time minus the paused time. */
  lemma ElapsedIsExact(start: int, completedAt: Option<int>, events: seq<TimeEvent>, status: string, now: int)
    requires start <= completedAt.GetOr(now)
    requires forall i :: 0 <= i < |events| ==> start <= events[i].timestamp <= completedAt.GetOr(now)
    ensures 0 <= TotalPausedMs(completedAt, events, now) <= completedAt.GetOr(now) - start
    ensures CalculateElapsedTime(Some(start), completedAt, events, status, now).elapsedMs
            == completedAt.GetOr(now) - start - TotalPausedMs(completedAt, events, now)
  {
    var sorted := SortedEvents(events);
    var end := completedAt.GetOr(now);
    forall i | 0 <= i < |sorted| ensures start <= sorted[i].timestamp <= end {
      assert sorted[i] in multiset(events);
    }
    ReplayBounded(sorted, PauseState(None, 0), start, start, end);
  }

  /** `formatElapsedTime`: whole minutes as `Xm`, whole hours as `Xh`, otherwise `Xh Ym`. */
  function FormatElapsedTime(ms: int): string
    requires ms >= 0
  {
    var totalMinutes := ms / 60000;
    RenderDuration(totalMinutes / 60, totalMinutes % 60)
  }

  function RenderDuration(hours: nat, minutes: nat): string {
    if hours == 0 then NatToString(minutes) + "m"
    else if minutes == 0 then NatToString(hours) + "h"
    else NatToString(hours) + "h " + NatToString(minutes) + "m"
  }

  /** Reads a rendered duration back as a number of minutes. */
  function ParseElapsedTime(s: string): Option<nat> {
    if |s| < 2 then None
    else
      var body := s[..|s| - 1];
      if s[|s| - 1] == 'h' then
        if AllDigits(body) then Some(ParseNat(body) * 60) else None
      else if s[|s| - 1] == 'm' then
        match IndexOf(body, "h ")
        case None => if AllDigits(body) then Some(ParseNat(body)) else None
        case Some(i) =>
          var hs, ms := body[..i], body[i + 2..];
          if AllDigits(hs) && AllDigits(ms) then Some(ParseNat(hs) * 60 + ParseNat(ms)) else None
      else None
  }

  /** The display text determines the whole minutes: reading it back gives `ms` floored to
      minutes, whichever of the three forms was chosen. */
  lemma FormatElapsedTimeRoundTrip(ms: int)
    requires ms >= 0
    ensures ParseElapsedTime(FormatElapsedTime(ms)) == Some(ms / 60000)
  {
    var totalMinutes := ms / 60000;
    ReadDuration(totalMinutes / 60, totalMinutes % 60);
  }

  lemma ReadDuration(hours: nat, minutes: nat)
    ensures ParseElapsedTime(RenderDuration(hours, minutes)) == Some(hours * 60 + minutes)
  {
    if hours == 0 {
      ReadMinutes(minutes);
    } else if minutes == 0 {
      ReadHours(hours);
    } else {
      ReadHoursAndMinutes(hours, minutes);
    }
  }

  lemma ReadMinutes(m: nat)
    ensures ParseElapsedTime(NatToString(m) + "m") == Some(m)
  {
    var s := NatToString(m) + "m";
    var body := s[..|s| - 1];
    assert body == NatToString(m);
    ParseNatToString(m);
    forall j | 0 <= j <= |body| ensures !OccursAt(body, "h ", j) {
      if j < |body| { assert IsDigit(body[j]); }
      NotOccursAt(body, "h ", j);
    }
    IndexOfNone(body, "h ");
  }

  lemma ReadHours(h: nat)
    ensures ParseElapsedTime(NatToString(h) + "h") == Some(h * 60)
  {
    var s := NatToString(h) + "h";
    assert s[..|s| - 1] == NatToString(h);
    ParseNatToString(h);
  }

  lemma ReadHoursAndMinutes(h: nat, m: nat)
    ensures ParseElapsedTime(NatToString(h) + "h " + NatToString(m) + "m") == Some(h * 60 + m)
  {
    var hs := NatToString(h);
    var s := hs + "h " + NatToString(m) + "m";
    var body := s[..|s| - 1];
    assert body == hs + "h " + NatToString(m);
    assert body[..|hs|] == hs;
    assert body[|hs| + 2..] == NatToString(m);
    assert OccursAt(body, "h ", |hs|);
    forall j | 0 <= j < |hs| ensures !OccursAt(body, "h ", j) {
      assert body[j] == hs[j] && IsDigit(hs[j]);
      NotOccursAt(body, "h ", j);
    }
    IndexOfAt(body, "h ", |hs|);
    ParseNatToString(h);
    ParseNatToString(m);
  }
}
