/** The overlay window's controller (`App`): the colour it paints, whether a
    drawing surface exists yet, and where it last moved the window.

    Creating the window and its softbuffer surface is windowing-system work;
    here it is the single bit `hasSurface`. The window's inner size, which the
    program queries when it redraws, is a parameter of the redraw. */
module Overlay {
  import opened Types

  const OFFSET_X: int := 20
  const OFFSET_Y: int := 5

  /** Controller state. `pos` is the outer position last requested by a
      `SetPos` (None while the window sits where the system placed it). */
  datatype App = App(color: Rgb, hasSurface: bool, pos: Option<(i32, i32)>)

  /** The state after one user event and whether it asked for a redraw. */
  datatype Reaction = Reaction(app: App, redrawRequested: bool)

  /** `App::new`: black, no surface, no position set. */
  function New(): App {
    App(Rgb(0, 0, 0), false, None)
  }

  /** `resumed`: a new window with a surface is created; the colour is kept
      and the new window starts at the system's default place. */
  function Resume(app: App): (next: App)
    ensures next.hasSurface && next.color == app.color && next.pos.None?
  {
    App(app.color, true, None)
  }

  /** Where `SetPos(x, y)` places the window: the cursor plus the fixed
      offset, with `i32` addition wrapping as in a release build. */
  function Placement(x: i32, y: i32): (p: (i32, i32))
    ensures x + OFFSET_X <= I32_MAX ==> p.0 == x + OFFSET_X
    ensures y + OFFSET_Y <= I32_MAX ==> p.1 == y + OFFSET_Y
  {
    (WrapI32(x + OFFSET_X), WrapI32(y + OFFSET_Y))
  }

  /** `user_event`: every event is dropped while no surface exists; once one
      exists the event is applied and a redraw is requested. */
  function UserEvent(app: App, ev: Command): (r: Reaction)
    ensures !app.hasSurface ==> r == Reaction(app, false)
    ensures app.hasSurface ==> r.redrawRequested && r.app.hasSurface
    ensures r.app.color == (if app.hasSurface && ev.SetColor? then Rgb(ev.r, ev.g, ev.b) else app.color)
    ensures r.app.pos == (if app.hasSurface && ev.SetPos? then Some(Placement(ev.x, ev.y)) else app.pos)
  {
    if !app.hasSurface then Reaction(app, false)
    else
      var next :=
        match ev
        case Redraw => app
        case SetColor(r, g, b) => app.(color := Rgb(r, g, b))
        case SetPos(x, y) => app.(pos := Some(Placement(x, y)));
      Reaction(next, true)
  }

  /** A fresh controller ignores every event: nothing changes and no redraw
      is requested until the window has been created. */
  lemma NewIgnoresEvents(ev: Command)
    ensures UserEvent(New(), ev) == Reaction(New(), false)
    ensures UserEvent(New(), ev).app.color == Rgb(0, 0, 0)
  {
  }

  /** `SetColor` sets exactly the requested colour and nothing else. */
  lemma SetColorSetsColor(app: App, r: bv8, g: bv8, b: bv8)
    requires app.hasSurface
    ensures UserEvent(app, SetColor(r, g, b)).app == app.(color := Rgb(r, g, b))
  {
  }

  /** Applying the same `SetColor` twice is the same as applying it once. */
  lemma SetColorIdempotent(app: App, r: bv8, g: bv8, b: bv8)
    ensures UserEvent(UserEvent(app, SetColor(r, g, b)).app, SetColor(r, g, b)) ==
            UserEvent(app, SetColor(r, g, b))
  {
  }

  /** `SetPos(x, y)` keeps the colour and moves the window to (x+20, y+5)
      when that does not overflow `i32`. */
  lemma SetPosMovesWindow(app: App, x: i32, y: i32)
    requires app.hasSurface
    requires x <= I32_MAX - OFFSET_X && y <= I32_MAX - OFFSET_Y
    ensures UserEvent(app, SetPos(x, y)).app.color == app.color
    ensures UserEvent(app, SetPos(x, y)).app.pos == Some((x + 20, y + 5))
  {
  }

  /** `Redraw` changes nothing; it only asks for a redraw when a surface exists. */
  lemma RedrawKeepsState(app: App)
    ensures UserEvent(app, Redraw).app == app
    ensures UserEvent(app, Redraw).redrawRequested == app.hasSurface
  {
  }

  /** The controller after a sequence of events, and how many redraws it asked for. */
  datatype Trace = Trace(app: App, redraws: nat)

  function Run(app: App, events: seq<Command>): Trace
    decreases |events|
  {
    if |events| == 0 then Trace(app, 0)
    else
      var r := UserEvent(app, events[0]);
      var rest := Run(r.app, events[1..]);
      Trace(rest.app, rest.redraws + if r.redrawRequested then 1 else 0)
  }

  /** Running one more event is one more step after the run. */
  lemma {:induction false} RunSnoc(app: App, events: seq<Command>, ev: Command)
    ensures Run(app, events + [ev]).app == UserEvent(Run(app, events).app, ev).app
    ensures Run(app, events + [ev]).redraws ==
              Run(app, events).redraws + if UserEvent(Run(app, events).app, ev).redrawRequested then 1 else 0
    decreases |events|
  {
    if |events| == 0 {
      assert (events + [ev])[1..] == [];
    } else {
      var r := UserEvent(app, events[0]);
      assert (events + [ev])[0] == events[0];
      assert (events + [ev])[1..] == events[1..] + [ev];
      RunSnoc(r.app, events[1..], ev);
    }
  }

  /** Reference definition: the colour named by the last `SetColor` among
      the events, or `initial` when there is none. */
  function LastColor(events: seq<Command>, initial: Rgb): Rgb
    decreases |events|
  {
    if |events| == 0 then initial
    else
      var ev := events[|events| - 1];
      if ev.SetColor? then Rgb(ev.r, ev.g, ev.b) else LastColor(events[..|events| - 1], initial)
  }

  /** Reference definition: where the last `SetPos` among the events puts
      the window, or `initial` when there is none. */
  function LastPos(events: seq<Command>, initial: Option<(i32, i32)>): Option<(i32, i32)>
    decreases |events|
  {
    if |events| == 0 then initial
    else
      var ev := events[|events| - 1];
      if ev.SetPos? then Some(Placement(ev.x, ev.y)) else LastPos(events[..|events| - 1], initial)
  }

  /** Once a surface exists, the controller ends with the last requested
      colour and position, and asks for one redraw per event. */
  lemma {:induction false} RunWithSurface(app: App, events: seq<Command>)
    requires app.hasSurface
    ensures Run(app, events).app.hasSurface
    ensures Run(app, events).app.color == LastColor(events, app.color)
    ensures Run(app, events).app.pos == LastPos(events, app.pos)
    ensures Run(app, events).redraws == |events|
    decreases |events|
  {
    if |events| > 0 {
      var init := events[..|events| - 1];
      var ev := events[|events| - 1];
      assert events == init + [ev];
      RunWithSurface(app, init);
      RunSnoc(app, init, ev);
    }
  }

  /** Without a surface, a whole sequence of events leaves the controller
      exactly as it was and asks for no redraw. */
  lemma {:induction false} RunWithoutSurface(app: App, events: seq<Command>)
    requires !app.hasSurface
    ensures Run(app, events) == Trace(app, 0)
    decreases |events|
  {
    if |events| > 0 {
      RunWithoutSurface(app, events[1..]);
    }
  }

  /** Events delivered before the window is created are lost; once `resumed`
      has run, the later events take effect: the colour of the last
      `SetColor` (black if none), the placement of the last `SetPos`, and one
      redraw per event. */
  lemma EventsTakeEffectAfterResume(early: seq<Command>, late: seq<Command>)
    ensures Run(New(), early) == Trace(New(), 0)
    ensures Run(Resume(Run(New(), early).app), late).app.color == LastColor(late, Rgb(0, 0, 0))
    ensures Run(Resume(Run(New(), early).app), late).app.pos == LastPos(late, None)
    ensures Run(Resume(Run(New(), early).app), late).redraws == |late|
  {
    RunWithoutSurface(New(), early);
    RunWithSurface(Resume(New()), late);
  }

  /** Colour and position are independent: a `SetColor` and a `SetPos`
      commute. */
  lemma SetColorSetPosCommute(app: App, r: bv8, g: bv8, b: bv8, x: i32, y: i32)
    ensures Run(app, [SetColor(r, g, b), SetPos(x, y)]) == Run(app, [SetPos(x, y), SetColor(r, g, b)])
  {
    assert [SetColor(r, g, b), SetPos(x, y)][1..] == [SetPos(x, y)];
    assert [SetPos(x, y), SetColor(r, g, b)][1..] == [SetColor(r, g, b)];
  }

  // ---------------------------------------------------------------------
  // Redraw: pixel packing and the buffer fill
  // ---------------------------------------------------------------------

  /** A colour as a softbuffer pixel: `b | g << 8 | r << 16`. */
  function Pack(c: Rgb): (px: bv32)
    ensures px < 0x100_0000
  {
    (c.b as bv32) | ((c.g as bv32) << 8) | ((c.r as bv32) << 16)
  }

  /** The colour a pixel shows: bytes 2, 1 and 0 are red, green and blue. */
  function Unpack(px: bv32): Rgb {
    Rgb(((px >> 16) & 0xFF) as bv8, ((px >> 8) & 0xFF) as bv8, (px & 0xFF) as bv8)
  }

  /** Packing loses nothing: the pixel shows exactly the colour. */
  lemma UnpackPack(c: Rgb)
    ensures Unpack(Pack(c)) == c
  {
  }

  /** The pixel is the number `b + 256*g + 65536*r`; the sum cannot wrap,
      as it stays below 2^24. */
  lemma PackIsSum(c: Rgb)
    ensures Pack(c) == c.b as bv32 + (c.g as bv32) * 0x100 + (c.r as bv32) * 0x1_0000
  {
    DisjointBytesAdd(c.r as bv32, c.g as bv32, c.b as bv32);
  }

  /** Or-ing bytes into disjoint positions is adding them. */
  lemma DisjointBytesAdd(r: bv32, g: bv32, b: bv32)
    requires r < 0x100 && g < 0x100 && b < 0x100
    ensures b | (g << 8) | (r << 16) == b + g * 0x100 + r * 0x1_0000
  {
  }

  /** The top byte of a pixel is zero, and pixels of different colours differ. */
  lemma PackTopByteAndInjective(c: Rgb, d: Rgb)
    ensures Pack(c) >> 24 == 0
    ensures Pack(c) == Pack(d) ==> c == d
  {
    UnpackPack(c);
    UnpackPack(d);
  }

  /** The fill loop: write `px` into the first `count` pixels of the
      surface's buffer, in place, one index at a time. */
  method Fill(buffer: array<bv32>, count: nat, px: bv32)
    requires count <= buffer.Length
    modifies buffer
    ensures forall i | 0 <= i < count :: buffer[i] == px
    ensures forall i | count <= i < buffer.Length :: buffer[i] == old(buffer[i])
  {
    var index := 0;
    while index < count
      invariant 0 <= index <= count
      invariant forall i | 0 <= i < index :: buffer[i] == px
      invariant forall i | index <= i < buffer.Length :: buffer[i] == old(buffer[i])
    {
      buffer[index] := px;
      index := index + 1;
    }
  }

  /** What a `RedrawRequested` window event does. */
  datatype Frame =
    | NotDrawn              // no surface yet, or the event is for another window
    | Panicked              // a zero width or height: `NonZeroU32::new(..).unwrap()` panics
    | Presented(pixels: seq<bv32>)

  /** `RedrawRequested`: resize the surface to the window's inner size, paint
      `width * height` pixels (a `u32` product) with the packed colour and
      present them. `stale` is the buffer the resized surface hands out,
      `width * height` pixels of unspecified content. */
  method RedrawRequested(app: App, forThisWindow: bool, width: u32, height: u32, stale: seq<bv32>)
    returns (frame: Frame)
    requires |stale| == width * height
    ensures frame.NotDrawn? <==> !app.hasSurface || !forThisWindow
    ensures frame.Panicked? <==> app.hasSurface && forThisWindow && (width == 0 || height == 0)
    ensures frame.Presented? ==> |frame.pixels| == width * height
    ensures frame.Presented? ==> forall i | 0 <= i < WrapU32(width * height) :: frame.pixels[i] == Pack(app.color)
    ensures frame.Presented? && width * height <= 0xFFFF_FFFF ==>
              forall i | 0 <= i < |frame.pixels| :: frame.pixels[i] == Pack(app.color)
  {
    if !app.hasSurface || !forThisWindow {
      return NotDrawn;
    }
    if width == 0 || height == 0 {
      return Panicked;
    }
    var buffer := new bv32[|stale|](i requires 0 <= i < |stale| => stale[i]);
    Fill(buffer, WrapU32(width * height), Pack(app.color));
    frame := Presented(buffer[..]);
  }
}
