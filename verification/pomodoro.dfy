/**
 * The press-driven countdown behind the Stream Deck key: a single 25-minute
 * timer that a short press starts or pauses, a long press resets, and a
 * one-second interval counts down until it stops itself at zero.
 *
 * The controller is modelled as an immutable `State` and a pure `Step` from
 * one host event to the next state plus the title (if any) written to the key,
 * given as the count of seconds it renders.
 * Wall-clock readings arrive as the event's `now`; the JavaScript interval
 * timers appear as handles: `interval` is the handle the controller keeps and
 * `live` the handles still armed, each of which would fire `Tick` events.
 */
module Pomodoro {
  import opened Wrappers
  import opened TimeFormat

  /** Length of one countdown, in seconds. */
  const DefaultDurationSeconds: int := 25 * 60

  /** Presses held at least this long, in milliseconds, are long presses. */
  const LongPressThresholdMs: int := 600

  datatype State = State(
    remaining: int,             // seconds left on the countdown
    running: bool,              // the countdown is ticking
    interval: Option<nat>,      // handle of the interval the controller keeps, if any
    live: set<nat>,             // handles of the intervals currently armed
    nextTimerId: nat,           // handle the next armed interval receives
    pressStart: Option<int>     // time of the key-down not yet matched by a key-up, in ms
  )

  /** Host events: the key appears, is pressed or released at time `now`, or an armed interval fires. */
  datatype Event = WillAppear | KeyDown(now: int) | KeyUp(now: int) | Tick

  /** The state after an event, and the count of seconds whose rendering
      `FormatTime(shown)` the event writes to the key as its title, if any. */
  datatype Reaction = Reaction(state: State, shown: Option<int>)

  /** The controller when it is created: full countdown, stopped, nothing armed, no press. */
  function Init(): (s: State)
    ensures Valid(s)
    ensures s.remaining == DefaultDurationSeconds && !s.running
    ensures s.live == {} && s.pressStart.None?
  {
    State(DefaultDurationSeconds, false, None, {}, 0, None)
  }

  /** The states the controller keeps: the countdown within [0, 25 minutes], a running
      countdown always has time left, and exactly one interval is armed while it runs
      and none otherwise, namely the one whose handle it keeps. */
  predicate Valid(s: State) {
    && 0 <= s.remaining <= DefaultDurationSeconds
    && (s.running ==> s.remaining > 0)
    && (s.running <==> s.interval.Some?)
    && s.live == (if s.interval.Some? then {s.interval.value} else {})
    && (forall id :: id in s.live ==> id < s.nextTimerId)
  }

  /** Whether a press from `pressedAt` to `releasedAt` counts as long. */
  predicate IsLongPress(pressedAt: int, releasedAt: int) {
    releasedAt - pressedAt >= LongPressThresholdMs
  }

  /** Disarms the kept interval, if there is one, and forgets its handle. */
  function ClearInterval(s: State): (r: State)
    ensures r.interval.None?
    ensures r.live == if s.interval.Some? then s.live - {s.interval.value} else s.live
    ensures r.remaining == s.remaining && r.running == s.running && r.pressStart == s.pressStart
    ensures r.nextTimerId == s.nextTimerId
    ensures Valid(s) ==> r.live == {}
  {
    match s.interval
    case None => s
    case Some(id) => s.(interval := None, live := s.live - {id})
  }

  /** Start: nothing happens if the countdown already runs; otherwise a finished
      countdown is first restored to the full duration, and one interval is armed. */
  function Start(s: State): (r: State)
    ensures s.running ==> r == s
    ensures !s.running ==> r.running && r.remaining > 0
    ensures !s.running && s.remaining > 0 ==> r.remaining == s.remaining
    ensures !s.running && s.remaining <= 0 ==> r.remaining == DefaultDurationSeconds
    ensures !s.running ==> r.interval.Some? && r.live == s.live + {r.interval.value}
    ensures Valid(s) && !s.running ==> r.interval.value !in s.live
    ensures Valid(s) && !s.running ==> Valid(r) && |r.live| == 1
    ensures Valid(s) ==> Valid(r)
    ensures r.pressStart == s.pressStart
  {
    if s.running then s
    else
      var restored := if s.remaining <= 0 then DefaultDurationSeconds else s.remaining;
      var id := s.nextTimerId;
      s.(remaining := restored, running := true,
         interval := Some(id), live := s.live + {id}, nextTimerId := id + 1)
  }

  /** Pause: the countdown stops with its time kept exactly; pausing a stopped countdown does nothing. */
  function Pause(s: State): (r: State)
    ensures r.remaining == s.remaining && !r.running
    ensures !s.running ==> r == s
    ensures Valid(s) ==> Valid(r) && r.live == {}
    ensures r.pressStart == s.pressStart
  {
    if !s.running then s
    else ClearInterval(s).(running := false)
  }

  /** Reset: from any state, the countdown stops at the full duration, which is shown. */
  function Reset(s: State): (o: Reaction)
    ensures o.state.remaining == DefaultDurationSeconds && !o.state.running
    ensures o.state.interval.None?
    ensures o.state.live == if s.interval.Some? then s.live - {s.interval.value} else s.live
    ensures o.state.nextTimerId == s.nextTimerId
    ensures o.shown == Some(o.state.remaining)
    ensures Valid(s) ==> Valid(o.state) && o.state.live == {}
    ensures o.state.pressStart == s.pressStart
  {
    var r := ClearInterval(s).(running := false, remaining := DefaultDurationSeconds);
    Reaction(r, Some(r.remaining))
  }

  /** One firing of an armed interval: a second comes off the countdown and the new
      count is shown; at zero or below the count is clamped to 0 and the countdown
      stops. With no interval armed nothing can fire. */
  function Fire(s: State): (o: Reaction)
    ensures s.live == {} ==> o == Reaction(s, None)
    ensures s.live != {} ==> o.shown == Some(s.remaining - 1)
    ensures s.live != {} && s.remaining > 1 ==> o.state == s.(remaining := s.remaining - 1)
    ensures s.live != {} && s.remaining <= 1 ==>
      && o.state.remaining == 0 && !o.state.running && o.state.interval.None?
      && o.state.live == (if s.interval.Some? then s.live - {s.interval.value} else s.live)
      && o.state.nextTimerId == s.nextTimerId && o.state.pressStart == s.pressStart
    ensures Valid(s) ==> Valid(o.state)
    ensures Valid(s) && s.running ==> o.state.remaining == s.remaining - 1
  {
    if s.live == {} then Reaction(s, None)
    else
      var left := s.remaining - 1;
      if left <= 0 then Reaction(ClearInterval(s).(remaining := 0, running := false), Some(left))
      else Reaction(s.(remaining := left), Some(left))
  }

  /** Key release at `now`: ignored without a recorded key-down; otherwise the press is
      forgotten and classified, a long press resets and a short one pauses a running
      countdown or starts a stopped one. Only a reset writes a title. */
  function Release(s: State, now: int): (o: Reaction)
    ensures s.pressStart.None? ==> o == Reaction(s, None)
    ensures o.state.pressStart.None?
    ensures s.pressStart.Some? && IsLongPress(s.pressStart.value, now) ==>
      o.state.remaining == DefaultDurationSeconds && !o.state.running && o.shown == Some(DefaultDurationSeconds)
    ensures s.pressStart.Some? && !IsLongPress(s.pressStart.value, now) ==>
      o.shown.None? && o.state.running == !s.running
    ensures s.pressStart.Some? && !IsLongPress(s.pressStart.value, now) && (s.running || s.remaining > 0) ==>
      o.state.remaining == s.remaining
    ensures Valid(s) ==> Valid(o.state)
  {
    match s.pressStart
    case None => Reaction(s, None)
    case Some(pressedAt) =>
      var released := s.(pressStart := None);
      if IsLongPress(pressedAt, now) then Reset(released)
      else if released.running then Reaction(Pause(released), None)
      else Reaction(Start(released), None)
  }

  /** The controller's reaction to one host event. */
  function Step(s: State, e: Event): (o: Reaction)
    ensures Valid(s) ==> Valid(o.state)
    ensures !e.KeyDown? && !e.KeyUp? ==> o.state.pressStart == s.pressStart
  {
    match e
    case WillAppear => Reaction(s, Some(s.remaining))
    case KeyDown(now) => Reaction(s.(pressStart := Some(now)), None)
    case KeyUp(now) => Release(s, now)
    case Tick => Fire(s)
  }
}
