/** How the pieces fit together: the HID task's commands as the overlay
    controller sees them. The event-loop proxy delivers one producer's
    commands in the order they were posted. */
module System {
  import opened Types
  import Hid
  import Overlay

  /** The colour the overlay ends with after the HID task's commands, when
      every read succeeded: the colour of the most recent known layer, or the
      initial red if no known layer was reported. */
  function ExpectedColor(reports: seq<Hid.Report>): Rgb {
    match Hid.LastKnownLayer(reports)
    case None => Rgb(255, 0, 0)
    case Some(layer) => Hid.LayerColor(layer).value
  }

  /** The last `SetColor` among the layer commands is the last known layer's colour. */
  lemma {:induction false} LastColorOfLayerCommands(reports: seq<Hid.Report>, initial: Rgb)
    ensures Overlay.LastColor(Hid.LayerCommands(reports), initial) ==
              match Hid.LastKnownLayer(reports)
              case None => initial
              case Some(layer) => Hid.LayerColor(layer).value
    decreases |reports|
  {
    if |reports| > 0 {
      var init := reports[..|reports| - 1];
      var last := reports[|reports| - 1];
      assert reports == init + [last];
      LastColorOfLayerCommands(init, initial);
      Hid.LayerCommandsSnoc(init, last);
      var cmds := Hid.LayerCommands(init);
      match Hid.Decode(last)
      case None =>
        assert Hid.LayerCommands(reports) == cmds;
      case Some(c) =>
        assert Hid.LayerCommands(reports) == cmds + [c];
        assert (cmds + [c])[..|cmds + [c]| - 1] == cmds;
    }
  }

  /** With the window up, the overlay shows the colour of the most recent
      known layer the keyboard reported, or red before any such report. */
  lemma OverlayFollowsLayer(app: Overlay.App, devices: seq<Hid.DeviceInfo>, reports: seq<Hid.Report>)
    requires app.hasSurface
    requires Hid.SelectDevice(devices).Some?
    ensures Overlay.Run(app, Hid.HidTask(Some(devices), true, Hid.AllGot(reports)).sent).app.color ==
              ExpectedColor(reports)
  {
    var sent := Hid.HidTask(Some(devices), true, Hid.AllGot(reports)).sent;
    Hid.ReadLoopIsLayerCommands(reports);
    var cmds := Hid.LayerCommands(reports);
    assert sent[1..] == cmds;
    assert sent == [SetColor(255, 0, 0)] + cmds;
    Overlay.RunWithSurface(app, sent);
    LastColorPrefix(cmds, SetColor(255, 0, 0), app.color);
    assert Overlay.LastColor(sent, app.color) == Overlay.LastColor(cmds, Rgb(255, 0, 0));
    LastColorOfLayerCommands(reports, Rgb(255, 0, 0));
  }

  /** A `SetColor` in front of the events is what the last-colour reference
      falls back to. */
  lemma {:induction false} LastColorPrefix(cmds: seq<Command>, first: Command, initial: Rgb)
    requires first.SetColor?
    ensures Overlay.LastColor([first] + cmds, initial) ==
              Overlay.LastColor(cmds, Rgb(first.r, first.g, first.b))
    decreases |cmds|
  {
    if |cmds| == 0 {
      assert ([first] + cmds)[..0] == [];
    } else {
      var init := cmds[..|cmds| - 1];
      assert ([first] + cmds)[..|[first] + cmds| - 1] == [first] + init;
      LastColorPrefix(init, first, initial);
    }
  }

  /** Until the window exists, whatever the HID task posts is lost: a fresh
      controller stays black and asks for no redraw. */
  lemma EarlyCommandsAreLost(enumerated: Option<seq<Hid.DeviceInfo>>, openOk: bool, results: seq<Hid.ReadResult>)
    ensures Overlay.Run(Overlay.New(), Hid.HidTask(enumerated, openOk, results).sent) ==
              Overlay.Trace(Overlay.New(), 0)
  {
    Overlay.RunWithoutSurface(Overlay.New(), Hid.HidTask(enumerated, openOk, results).sent);
  }
}
