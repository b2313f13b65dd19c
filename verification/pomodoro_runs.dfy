/**
 * Sequences of host events fed to the controller one after another, and the
 * properties of whole runs: every reachable state is valid, ticks count down
 * one second each, a pause and a resume lose no time, a long press resets.
 */
module PomodoroRuns {
  import opened Wrappers
  import opened TimeFormat
  import opened Pomodoro

  /** The state after a run of events and, in order, the counts shown along the
      way; the key's titles are their renderings by `FormatTime`. */
  datatype Trace = Trace(state: State, shown: seq<int>)

  function Shown(t: Option<int>): seq<int> {
    match t
    case None => []
    case Some(n) => [n]
  }

  /** Feeds the events to the controller in order. */
  function Run(s: State, events: seq<Event>): Trace
    decreases |events|
  {
    if events == [] then Trace(s, [])
    else
      var o := Step(s, events[0]);
      var rest := Run(o.state, events[1..]);
      Trace(rest.state, Shown(o.shown) + rest.shown)
  }

  /** `n` firings of the interval. */
  function Ticks(n: nat): (ts: seq<Event>)
    ensures |ts| == n && forall i :: 0 <= i < n ==> ts[i] == Tick
  {
    seq(n, _ => Tick)
  }

  /** A run of one event is that event's step. */
  lemma RunSingle(s: State, e: Event)
    ensures Run(s, [e]) == Trace(Step(s, e).state, Shown(Step(s, e).shown))
  {
    assert [e][1..] == [];
    assert Shown(Step(s, e).shown) + [] == Shown(Step(s, e).shown);
  }

  /** Running two batches of events ends where running the second from the first's end does. */
  lemma {:induction false} RunAppendState(s: State, a: seq<Event>, b: seq<Event>)
    ensures Run(s, a + b).state == Run(Run(s, a).state, b).state
    decreases |a|
  {
    if a == [] {
      assert a + b == b;
    } else {
      assert (a + b)[0] == a[0];
      assert (a + b)[1..] == a[1..] + b;
      RunAppendState(Step(s, a[0]).state, a[1..], b);
    }
  }

  /** Running two batches of events shows the first batch's titles, then the second's. */
  lemma {:induction false} RunAppendShown(s: State, a: seq<Event>, b: seq<Event>)
    ensures Run(s, a + b).shown == Run(s, a).shown + Run(Run(s, a).state, b).shown
    decreases |a|
  {
    if a == [] {
      assert a + b == b;
    } else {
      var o := Step(s, a[0]);
      assert (a + b)[0] == a[0];
      assert (a + b)[1..] == a[1..] + b;
      RunAppendShown(o.state, a[1..], b);
      RunAppendState(o.state, a[1..], b);
      var x := Shown(o.shown);
      var y := Run(o.state, a[1..]).shown;
      var z := Run(Run(o.state, a[1..]).state, b).shown;
      assert x + (y + z) == (x + y) + z;
    }
  }

  /** Every event keeps the controller's state valid, so every run does. */
  lemma {:induction false} RunPreservesValid(s: State, events: seq<Event>)
    requires Valid(s)
    ensures Valid(Run(s, events).state)
    decreases |events|
  {
    if events != [] {
      RunPreservesValid(Step(s, events[0]).state, events[1..]);
    }
  }

  /** In every state reachable from the initial one the countdown lies within
      [0, 25 minutes], and at most one interval is armed, exactly while it runs. */
  lemma Reachable(events: seq<Event>)
    ensures var s := Run(Init(), events).state;
      && 0 <= s.remaining <= DefaultDurationSeconds
      && |s.live| <= 1
      && (s.running <==> s.live != {})
  {
    RunPreservesValid(Init(), events);
  }

  /** The key first shows "25:00", the full 25 minutes, and the initial controller is valid. */
  lemma InitialRender()
    ensures Valid(Init())
    ensures Init().remaining == 1500 && !Init().running && Init().pressStart.None?
    ensures Step(Init(), WillAppear) == Reaction(Init(), Some(1500))
    ensures FormatTime(1500) == "25:00"
  {
    FormatTime1500();
  }

  /** A key release with no recorded key-down changes nothing and shows nothing. */
  lemma StrayKeyUpIgnored(s: State, now: int)
    requires s.pressStart.None?
    ensures Step(s, KeyUp(now)) == Reaction(s, None)
  {
  }

  /** Whether a press writes a title is exactly whether it was long: a long press
      shows the reset countdown, a short one pauses or starts silently. */
  lemma TitleIffLongPress(s: State, pressedAt: int, releasedAt: int)
    requires s.pressStart == Some(pressedAt)
    ensures Step(s, KeyUp(releasedAt)).shown.Some? <==> IsLongPress(pressedAt, releasedAt)
  {
  }

  /** Exactly 600 ms is already a long press; 599 ms, or a clock that went backwards, is short. */
  lemma LongPressBoundary(t: int)
    ensures IsLongPress(t, t + 600)
    ensures !IsLongPress(t, t + 599)
    ensures !IsLongPress(t, t - 1)
  {
  }

  /** A key-down followed by a key-up is the key-up handled with the press recorded. */
  lemma RunPress(s: State, t0: int, t1: int)
    ensures var o := Release(s.(pressStart := Some(t0)), t1);
      Run(s, [KeyDown(t0), KeyUp(t1)]) == Trace(o.state, Shown(o.shown))
  {
    var s1 := s.(pressStart := Some(t0));
    assert Step(s, KeyDown(t0)) == Reaction(s1, None);
    assert [KeyDown(t0), KeyUp(t1)] == [KeyDown(t0)] + [KeyUp(t1)];
    RunAppendState(s, [KeyDown(t0)], [KeyUp(t1)]);
    RunAppendShown(s, [KeyDown(t0)], [KeyUp(t1)]);
    RunSingle(s, KeyDown(t0));
    RunSingle(s1, KeyUp(t1));
  }

  /** A key-down records its time and nothing else; a second key-down before the
      key-up replaces the first, so the press is measured from the latest one. */
  lemma KeyDownRecordsLatest(s: State, t0: int, t1: int, t2: int)
    ensures Step(s, KeyDown(t0)) == Reaction(s.(pressStart := Some(t0)), None)
    ensures Run(s, [KeyDown(t0), KeyDown(t1), KeyUp(t2)]) == Run(s, [KeyDown(t1), KeyUp(t2)])
  {
    var s0 := s.(pressStart := Some(t0));
    assert [KeyDown(t0), KeyDown(t1), KeyUp(t2)] == [KeyDown(t0)] + [KeyDown(t1), KeyUp(t2)];
    RunAppendState(s, [KeyDown(t0)], [KeyDown(t1), KeyUp(t2)]);
    RunAppendShown(s, [KeyDown(t0)], [KeyDown(t1), KeyUp(t2)]);
    RunSingle(s, KeyDown(t0));
    RunPress(s0, t1, t2);
    RunPress(s, t1, t2);
    assert s0.(pressStart := Some(t1)) == s.(pressStart := Some(t1));
  }

  /** A long press, from any state, stops the countdown at the full duration and shows it. */
  lemma LongPressResets(s: State, pressedAt: int, releasedAt: int)
    requires IsLongPress(pressedAt, releasedAt)
    ensures var t := Run(s, [KeyDown(pressedAt), KeyUp(releasedAt)]);
      && t.state.remaining == DefaultDurationSeconds
      && !t.state.running
      && t.state.pressStart.None?
      && t.shown == [DefaultDurationSeconds]
      && FormatTime(t.shown[0]) == "25:00"
      && (Valid(s) ==> t.state.live == {})
  {
    RunPress(s, pressedAt, releasedAt);
    FormatTime1500();
  }

  /** A short press then another short press, with no tick in between, resumes
      the countdown with exactly the time it had: pausing loses nothing. */
  lemma PauseResumeLosesNoTime(s: State, t0: int, t1: int, t2: int, t3: int)
    requires Valid(s) && s.running
    requires !IsLongPress(t0, t1) && !IsLongPress(t2, t3)
    ensures var t := Run(s, [KeyDown(t0), KeyUp(t1), KeyDown(t2), KeyUp(t3)]);
      && t.state.running
      && t.state.remaining == s.remaining
      && Valid(t.state)
      && t.shown == []
  {
    var first := [KeyDown(t0), KeyUp(t1)];
    var second := [KeyDown(t2), KeyUp(t3)];
    assert [KeyDown(t0), KeyUp(t1), KeyDown(t2), KeyUp(t3)] == first + second;
    RunAppendState(s, first, second);
    RunAppendShown(s, first, second);
    RunPress(s, t0, t1);
    var paused := Run(s, first).state;
    assert !paused.running && paused.remaining == s.remaining && Valid(paused);
    RunPress(paused, t2, t3);
  }

  /** `n + 1` ticks are one tick followed by `n` more. */
  lemma TicksUnfold(n: nat)
    ensures Ticks(n + 1) == [Tick] + Ticks(n)
  {
  }

  /** While a running countdown has more than `n` seconds left, `n` ticks take off
      exactly `n` seconds and leave it running with nothing else changed. */
  lemma {:induction false} TicksCountDown(s: State, n: nat)
    requires Valid(s) && s.running && n < s.remaining
    ensures Run(s, Ticks(n)).state == s.(remaining := s.remaining - n)
    decreases n
  {
    if n > 0 {
      var next := Step(s, Tick).state;
      assert next == s.(remaining := s.remaining - 1);
      TicksUnfold(n - 1);
      RunAppendState(s, [Tick], Ticks(n - 1));
      RunSingle(s, Tick);
      TicksCountDown(next, n - 1);
    }
  }

  /** While a running countdown has more than `n` seconds left, `n` ticks show
      the counts from one second below the start downwards, one per tick. */
  lemma {:induction false} TicksShowCountdown(s: State, n: nat)
    requires Valid(s) && s.running && n < s.remaining
    ensures Run(s, Ticks(n)).shown == seq(n, i => s.remaining - 1 - i)
    decreases n
  {
    if n > 0 {
      var next := Step(s, Tick).state;
      assert next == s.(remaining := s.remaining - 1);
      TicksUnfold(n - 1);
      RunAppendShown(s, [Tick], Ticks(n - 1));
      RunSingle(s, Tick);
      TicksShowCountdown(next, n - 1);
      assert s.live != {} by {
        assert s.interval.value in s.live;
      }
      assert Run(s, [Tick]) == Trace(next, [s.remaining - 1]);
      assert [s.remaining - 1] + seq(n - 1, i => next.remaining - 1 - i) == seq(n, i => s.remaining - 1 - i);
    }
  }

  /** A running countdown left to tick runs out: after as many ticks as it had
      seconds, it shows 0 as "0:00", stands at 0, stops, and has no interval armed. */
  lemma TicksRunOut(s: State)
    requires Valid(s) && s.running
    ensures var t := Run(s, Ticks(s.remaining));
      && t.state.remaining == 0
      && !t.state.running
      && t.state.live == {}
      && t.shown == seq(s.remaining, i => s.remaining - 1 - i)
      && FormatTime(t.shown[|t.shown| - 1]) == "0:00"
  {
    var n := s.remaining - 1;
    assert Ticks(s.remaining) == Ticks(n) + [Tick];
    RunAppendState(s, Ticks(n), [Tick]);
    RunAppendShown(s, Ticks(n), [Tick]);
    TicksCountDown(s, n);
    TicksShowCountdown(s, n);
    var last := Run(s, Ticks(n)).state;
    assert last.remaining == 1 && last.running && Valid(last);
    assert last.live != {} by {
      assert last.interval.value in last.live;
    }
    RunSingle(last, Tick);
    assert Run(last, [Tick]).shown == [0];
    assert seq(n, i => s.remaining - 1 - i) + [0] == seq(s.remaining, i => s.remaining - 1 - i);
    FormatTime0();
  }

  /** Once stopped, further ticks change nothing: no interval is left to fire. */
  lemma StoppedIgnoresTicks(s: State)
    requires Valid(s) && !s.running
    ensures Step(s, Tick) == Reaction(s, None)
  {
  }

  /** A short press on a countdown that ran out starts it again from the full duration. */
  lemma RestartAfterRunOut(s: State, t0: int, t1: int)
    requires Valid(s) && !s.running && s.remaining == 0
    requires !IsLongPress(t0, t1)
    ensures var t := Run(s, [KeyDown(t0), KeyUp(t1)]);
      && t.state.running
      && t.state.remaining == DefaultDurationSeconds
      && |t.state.live| == 1
  {
    RunPress(s, t0, t1);
  }
}
