# keyboard-layer-cursor, modelled in Dafny

keyboard-layer-cursor is a small Windows overlay. It shows a tiny coloured,
borderless, always-on-top window next to the mouse cursor. The window's colour
shows the keyboard's active layer. The program has three moving parts, and
this project models each one as pure logic with the I/O taken out:

- **The HID task** (`src/hid.rs`) finds the keyboard's layer-report interface,
  which is the last enumerated HID device with usage page `0xFF60` and usage id
  `0x61`. It opens that device and posts an initial `SetColor(255, 0, 0)`. It
  then reads 32-byte input reports, and each layer report (byte 0 = `0x01`)
  for layer 0, 1 or 2 posts a hard-coded colour. Enumeration, opening and
  reading are inputs: `Hid.HidTask` maps their outcomes to the commands posted
  and to how the task ends. A read error ends the task; nothing retries it.
- **The overlay controller** (`src/window.rs`, `App`) holds a colour, whether
  a drawing surface exists, and the last requested window position.
  `Overlay.UserEvent` is the `user_event` state machine. `Overlay.Pack` is the
  `b | g << 8 | r << 16` pixel packing. `Overlay.RedrawRequested` is the
  redraw: it fills `width * height` pixels through the loop in `Overlay.Fill`.
- **The mouse-hook task** (`src/mouse_hook.rs`) works in 10 ms throttle
  windows. Each window is given as the events received during it plus the
  result the cursor query would return. `MouseHook.WindowOutput` is one pass of
  the outer loop, and `MouseHook.Run` runs it over a sequence of windows.

`System` connects the HID task to the controller. Once the window exists, the
overlay ends up showing the colour of the most recent known layer. Any of the
task's commands delivered to the controller before the window exists are
dropped.

Files: `types.dfy` holds the shared vocabulary (`Option`, the `i32`/`u32`
widths, `Rgb` and `Command`, which is the program's `CustomEventLoopEvent`).
`hid.dfy`, `overlay.dfy` and `mouse_hook.dfy` each model one source file.
`system.dfy` holds the lemmas that span files.

### Behaviour worth knowing

- The program has no layer table and no `Hide` command. `src/hid.rs:29-36`
  hard-codes layer 0 to blue, layer 1 to green and layer 2 to red, and
  `src/window.rs:18-22` has only `Redraw`, `SetColor` and `SetPos`.
- The first command after opening the device is `SetColor(255, 0, 0)`
  (`src/hid.rs:22`). This is the colour the decoder gives layer 2, not
  layer 0.
- A read error ends the HID task, and nothing reconnects (`src/hid.rs:26`).
  The model proves that nothing after the first error is looked at.
- User events are dropped until a surface exists (`src/window.rs:47`). This
  includes window moves.
- `src/main.rs:77` calls `App::new(CONFIG.clone())` and `src/main.rs:84`
  passes a layer table to `hid_task`. The callees take neither argument
  (`src/window.rs:25`, `src/hid.rs:7`), so the model uses what the callees
  define.

### Integer widths

The model follows a release build, where `i32` and `u32` arithmetic wraps
around. The source does not fix the build profile.

- `SetPos` computes `x + 20` and `y + 5` on `i32`. The model wraps in two's
  complement (`Types.WrapI32`). `Overlay.SetPosMovesWindow` states the exact
  `(x + 20, y + 5)` when the sums do not overflow.
- The redraw loop bound `width * height` is a `u32` product. The model wraps it
  (`Types.WrapU32`). The surface's buffer holds `width * height` pixels.

## Model

| member | source | states |
|---|---|---|
| Hid.SelectDevice | src/hid.rs:9-18 | The chosen device is None exactly when no enumerated device has usage page 0xFF60 and usage id 0x61; otherwise it is such a device, and no later device in the enumeration matches (the last match wins) |
| Hid.ScanDevicesKeepsLast | src/hid.rs:10-14 | The front-to-back overwrite loop ends with the last matching device, or with its starting value when nothing matches |
| Hid.SelectDeviceSnoc | src/hid.rs:10-14 | Adding one device to the end of the enumeration: a match becomes the choice, and a non-match leaves the choice as it was |
| Hid.Decode | src/hid.rs:27-37 | A report produces a command exactly when byte 0 is 0x01 and byte 1 is below 3, and that command is always a SetColor |
| Hid.DecodeKnownLayers | src/hid.rs:29-32 | A layer report for layer 0, 1 or 2 gives SetColor(0,0,255), SetColor(0,255,0) or SetColor(255,0,0) respectively |
| Hid.DecodeLayerReport | src/hid.rs:27-36 | Round trip: the report the keyboard sends for a known layer decodes to a colour that maps back to that same layer; a layer of 3 or more decodes to nothing |
| Hid.DecodeNamesLayer | src/hid.rs:29-32 | Any decoded command identifies the report's byte 1 through the inverse colour table, so different layers never share a colour |
| Hid.DecodeReadsOnlyHeader | src/hid.rs:25-37 | Two reports that agree on bytes 0 and 1 decode to the same result, so bytes 2..31 are ignored |
| Hid.ReadLoop | src/hid.rs:24-39 | The read loop posts at most one command per read, and only SetColor commands; it ends with ReadFailed exactly when some read failed, and otherwise keeps waiting |
| Hid.ReadLoopSkips | src/hid.rs:33-35 | A report that decodes to nothing leaves no trace, and the loop goes on with the next read |
| Hid.ReadLoopStopsAtError | src/hid.rs:26 | Reads after the first read error are never looked at, so there is no retry |
| Hid.ReadLoopAppend | src/hid.rs:24-39 | A prefix of successful reads contributes its commands in order, ahead of whatever the later reads post |
| Hid.ReadLoopIsLayerCommands | src/hid.rs:24-39 | When every read succeeds, the loop posts exactly the decoded commands of the reports, in order, and does not end |
| Hid.LayerCommandsSnoc | src/hid.rs:24-38 | One more report adds its decoded command, if any, at the end of the trace |
| Hid.HidTask | src/hid.rs:7-40 | A failed enumeration, no matching device, or a failed open each end the task with that error and no command; after a successful open the first command is SetColor(255,0,0), followed by the read loop's commands, with at most one command per read plus the initial one; after a successful open the task ends with ReadFailed exactly when some read failed, and otherwise it keeps waiting |
| Overlay.UserEvent | src/window.rs:46-61 | Without a surface the event changes nothing and requests no redraw; with one, a redraw is always requested, the colour becomes the SetColor payload or stays, and the position becomes the SetPos placement or stays |
| Overlay.EventsTakeEffectAfterResume | src/window.rs:25-61 | Events delivered to a new App before `resumed` change nothing; after `resumed` creates the surface, later events leave the colour of the last SetColor (black if none) and the placement of the last SetPos, with one redraw per event |
| Overlay.Placement | src/window.rs:55 | The window goes to the cursor offset by (20, 5); each coordinate is exact when it does not overflow i32 |
| Overlay.NewIgnoresEvents | src/window.rs:25-30 | A new App is black with no surface, and it ignores every event without requesting a redraw |
| Overlay.SetColorSetsColor | src/window.rs:50-52 | With a surface, SetColor(r,g,b) sets the colour to exactly (r,g,b) and changes nothing else |
| Overlay.SetColorIdempotent | src/window.rs:50-52 | Applying the same SetColor twice gives the same result as applying it once |
| Overlay.SetPosMovesWindow | src/window.rs:53-56 | SetPos(x,y) keeps the colour and moves the window to (x+20, y+5) when neither sum overflows i32 |
| Overlay.RedrawKeepsState | src/window.rs:49 | Redraw changes no state, and it requests a redraw exactly when a surface exists |
| Overlay.RunSnoc | src/window.rs:46-61 | Processing one more event is one more user_event step after the earlier events |
| Overlay.RunWithSurface | src/window.rs:46-61 | Once a surface exists, a sequence of events leaves the colour of the last SetColor and the placement of the last SetPos, and it requests one redraw per event |
| Overlay.RunWithoutSurface | src/window.rs:47 | Without a surface, any sequence of events leaves the controller unchanged and requests no redraw |
| Overlay.SetColorSetPosCommute | src/window.rs:48-57 | Colour and position are independent: SetColor then SetPos has the same effect as SetPos then SetColor |
| Overlay.Pack | src/window.rs:85-87 | The packed pixel is below 2^24 |
| Overlay.PackIsSum | src/window.rs:85-87 | The packed pixel equals b + 256*g + 65536*r, computed in u32 without wrapping |
| Overlay.UnpackPack | src/window.rs:85-87 | Packing loses nothing: bytes 2, 1 and 0 of the pixel are red, green and blue |
| Overlay.PackTopByteAndInjective | src/window.rs:85-87 | The top byte of every pixel is zero, and different colours pack to different pixels |
| Overlay.Fill | src/window.rs:83-88 | The loop writes the colour in place into each of the first count pixels of the surface buffer and leaves the rest of the buffer as it was |
| Overlay.RedrawRequested | src/window.rs:69-92 | Nothing is drawn without a surface or for another window; a zero width or height panics; otherwise the first width*height pixels (the u32 product) hold the packed colour, which is every pixel when the product fits in u32 |
| MouseHook.ObserveSpec | src/mouse_hook.rs:20-31 | The flag ends set exactly when it started set or some event received was an Object/LocationChange |
| MouseHook.ObserveIgnoresOthers | src/mouse_hook.rs:23-28 | Events that are not Object/LocationChange leave the flag unchanged |
| MouseHook.WindowOutput | src/mouse_hook.rs:18-46 | Starting from a reset flag, a window posts something exactly when it saw a LocationChange and the cursor query succeeded, and then it posts SetPos with the queried coordinates unchanged |
| MouseHook.Run | src/mouse_hook.rs:18-46 | A run posts at most one command per window, and every command it posts is a SetPos |
| MouseHook.RunAppend | src/mouse_hook.rs:19 | Because the flag is reset every window, the commands of a run are those of its first part followed by those of the rest |
| MouseHook.QuietWindowPostsNothing | src/mouse_hook.rs:38 | A window without a LocationChange posts nothing, whatever came before it |
| MouseHook.BusyWindowPostsOnce | src/mouse_hook.rs:38-45 | A window with any number of LocationChange events and a successful query posts exactly one SetPos at the queried position |
| MouseHook.FailedQueryPostsNothing | src/mouse_hook.rs:40-44 | A window whose cursor query fails posts nothing, and the windows after it carry on as usual |
| System.LastColorOfLayerCommands | src/hid.rs:27-37 | The last colour among the decoded layer commands is the colour of the most recent known layer report |
| System.OverlayFollowsLayer | src/hid.rs:20-38 | With the window up and every read successful, the overlay ends with the colour of the most recent known layer, or red if no known layer was reported |
| System.LastColorPrefix | src/hid.rs:22 | The initial SetColor is the colour shown until a later SetColor replaces it |
| System.EarlyCommandsAreLost | src/window.rs:47 | Every HID task command delivered to the controller before the window exists is dropped: a new controller stays black and requests no redraw |

## Left out

- Window creation, the softbuffer context and surface, `get_hwnd` and raw
  window handles (`src/window.rs:34-44`, `src/window.rs:99-107`) are
  windowing-system calls. The model keeps one `hasSurface` bit, and the
  window's inner size is a parameter of the redraw.
- The failure of `resize`, `buffer_mut` or `present` (the `unwrap`s at
  `src/window.rs:81-90`) is surface I/O and is not modelled. The buffer handed
  out after a resize is a parameter of `width * height` pixels.
- `CloseRequested` (`src/window.rs:65-68`) only exits the event loop and holds
  no state, so it is not modelled.
- Async HID enumeration, open and read, and `GetCursorPos`, are foreign I/O.
  Their outcomes are inputs: an enumeration result, an open flag, a sequence
  of read results, and a per-window cursor query result. A short read leaves
  the rest of the fresh zeroed buffer as zeros; the model takes the 32-byte
  buffer as given.
- The tokio runtime, `select!`, the unbounded channel, the 10 ms timer and the
  ctrl-c handler (`src/mouse_hook.rs:10-36`, `src/main.rs:76-92`) are
  concurrency. A throttle window is the finite sequence of events received
  before the timer fires. The event-loop proxy is modelled as in-order
  delivery of one producer's commands. Interleaving between the two tasks is
  not modelled.
- Failing to install the hook (`src/mouse_hook.rs:12-16`) ends the mouse task
  before any window. It is a single I/O error path and is not modelled.
- The `Config` layer table, size and offset (`src/main.rs:13-34`) are not
  consumed by the modelled code, so they are not modelled, and neither is a
  `Hide` command.
- Auto-launch argument handling and console attach (`src/main.rs:37-74`) are
  process bootstrap.
- The `println!` logging in `src/hid.rs:28` and `src/window.rs:66` is output
  only.
- A debug build panics when `x + 20`, `y + 5` (`src/window.rs:55`) or
  `width * height` (`src/window.rs:84`) overflows. The model follows a
  release build, where these wrap, and does not model the debug-build panic.
- Overlay.PackIsSum: states the sum in `bv32` arithmetic rather than as an
  unbounded integer. The two are equal because the value stays below 2^24.
