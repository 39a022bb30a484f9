/** The mouse-hook task: window-location events arrive from a system hook,
    and each 10 ms throttle window produces at most one `SetPos` with the
    cursor position queried at the end of the window.

    The hook, the channel, the timer and `GetCursorPos` are I/O; a throttle
    window is given as the events received during it together with what the
    cursor query would return. */
module MouseHook {
  import opened Types

  /** The object events the hook can report; only one of them matters. */
  datatype ObjectEvent = LocationChange | OtherObjectEvent(code: int)

  /** An event code the hook library either recognises or passes on raw. */
  datatype MaybeKnown<T> = Known(value: T) | Unknown(code: int)

  /** The type of a window event: an object event, or any other family. */
  datatype EventType = Object(kind: MaybeKnown<ObjectEvent>) | OtherFamily(code: int)

  /** One throttle window: the events received before the timer fired, and
      the result `GetCursorPos` gives if it is called (None when it fails). */
  datatype ThrottleWindow = ThrottleWindow(events: seq<EventType>, cursor: Option<(i32, i32)>)

  /** The event the inner loop waits for. */
  predicate IsLocationChange(e: EventType) {
    e.Object? && e.kind.Known? && e.kind.value.LocationChange?
  }

  /** The inner receive loop: set the flag on each location change, leave it
      alone on anything else. */
  function Observe(posChange: bool, events: seq<EventType>): bool
    decreases |events|
  {
    if |events| == 0 then posChange
    else Observe(if IsLocationChange(events[0]) then true else posChange, events[1..])
  }

  /** The flag ends set exactly when it started set or some event was a
      location change. */
  lemma {:induction false} ObserveSpec(posChange: bool, events: seq<EventType>)
    ensures Observe(posChange, events) <==>
              posChange || exists i | 0 <= i < |events| :: IsLocationChange(events[i])
    decreases |events|
  {
    if |events| > 0 {
      var tail := events[1..];
      ObserveSpec(if IsLocationChange(events[0]) then true else posChange, tail);
      assert forall j | 0 <= j < |tail| :: tail[j] == events[j + 1];
      if exists i | 0 <= i < |events| :: IsLocationChange(events[i]) {
        var i :| 0 <= i < |events| && IsLocationChange(events[i]);
        if i > 0 {
          assert IsLocationChange(tail[i - 1]);
        }
      }
    }
  }

  /** Events other than a location change leave the flag as it was. */
  lemma {:induction false} ObserveIgnoresOthers(posChange: bool, events: seq<EventType>)
    requires forall i | 0 <= i < |events| :: !IsLocationChange(events[i])
    ensures Observe(posChange, events) == posChange
  {
    ObserveSpec(posChange, events);
  }

  /** One pass of the outer loop: reset the flag, collect the window's
      events, then post the queried position if the flag is set and the
      query succeeded. */
  function WindowOutput(w: ThrottleWindow): (cmd: Option<Command>)
    ensures cmd.Some? <==>
              (exists i | 0 <= i < |w.events| :: IsLocationChange(w.events[i])) && w.cursor.Some?
    ensures cmd.Some? ==> cmd.value == SetPos(w.cursor.value.0, w.cursor.value.1)
  {
    ObserveSpec(false, w.events);
    var posChange := Observe(false, w.events);
    if posChange && w.cursor.Some? then Some(SetPos(w.cursor.value.0, w.cursor.value.1))
    else None
  }

  /** The commands posted over a run of throttle windows. */
  function Run(windows: seq<ThrottleWindow>): (cmds: seq<Command>)
    ensures |cmds| <= |windows|
    ensures forall i | 0 <= i < |cmds| :: cmds[i].SetPos?
    decreases |windows|
  {
    if |windows| == 0 then []
    else
      var rest := Run(windows[1..]);
      match WindowOutput(windows[0])
      case None => rest
      case Some(c) => [c] + rest
  }

  /** The flag is reset every window: a run splits into independent parts,
      so nothing seen in one window carries over to the next. */
  lemma {:induction false} RunAppend(a: seq<ThrottleWindow>, b: seq<ThrottleWindow>)
    ensures Run(a + b) == Run(a) + Run(b)
    decreases |a|
  {
    if |a| == 0 {
      assert a + b == b;
    } else {
      RunAppend(a[1..], b);
      assert (a + b)[0] == a[0];
      assert (a + b)[1..] == a[1..] + b;
    }
  }

  /** A window with no location change posts nothing, whatever came before
      it and whatever the cursor query would say. */
  lemma QuietWindowPostsNothing(before: seq<ThrottleWindow>, w: ThrottleWindow)
    requires forall i | 0 <= i < |w.events| :: !IsLocationChange(w.events[i])
    ensures Run(before + [w]) == Run(before)
  {
    RunAppend(before, [w]);
    assert [w][1..] == [];
  }

  /** A burst of location changes in one window still posts a single
      `SetPos`, carrying the queried cursor position unchanged. */
  lemma BusyWindowPostsOnce(before: seq<ThrottleWindow>, w: ThrottleWindow, x: i32, y: i32)
    requires exists i | 0 <= i < |w.events| :: IsLocationChange(w.events[i])
    requires w.cursor == Some((x, y))
    ensures Run(before + [w]) == Run(before) + [SetPos(x, y)]
  {
    RunAppend(before, [w]);
    assert [w][1..] == [];
  }

  /** A failed cursor query drops the window's update and the loop goes on. */
  lemma FailedQueryPostsNothing(before: seq<ThrottleWindow>, w: ThrottleWindow, after: seq<ThrottleWindow>)
    requires w.cursor.None?
    ensures Run(before + [w] + after) == Run(before) + Run(after)
  {
    RunAppend(before + [w], after);
    RunAppend(before, [w]);
    assert [w][1..] == [];
  }
}
