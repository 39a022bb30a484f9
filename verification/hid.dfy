/** The HID task: pick the keyboard's layer-report interface among the
    enumerated HID devices, open it, post an initial colour, then turn every
    32-byte input report into at most one `SetColor` command.

    Enumeration, opening and reading are asynchronous I/O in the program; here
    their outcomes are inputs, and the task is a pure function from those
    outcomes to the commands it posts and the way it ends. */
module Hid {
  import opened Types

  /** Rust `u16`, the width of HID usage pages and usage ids. */
  type u16 = x: int | 0 <= x <= 0xFFFF

  const LAYER_USAGE_PAGE: u16 := 0xFF60
  const LAYER_USAGE_ID: u16 := 0x61
  const REPORT_SIZE: nat := 32
  /** Report-type tag of a layer report (byte 0). */
  const LAYER_REPORT_TAG: bv8 := 0x01

  /** The parts of an enumerated device the task looks at, plus an identity. */
  datatype DeviceInfo = DeviceInfo(id: nat, usagePage: u16, usageId: u16)

  /** One input report: the task always reads into a fresh 32-byte buffer. */
  type Report = s: seq<bv8> | |s| == REPORT_SIZE witness seq(32, _ => 0)

  /** Outcome of one `read_input_report` call. */
  datatype ReadResult = Got(report: Report) | ReadError

  /** The ways the task ends (each `?` and the explicit `Err`). */
  datatype HidError = EnumerateFailed | NoDeviceFound | OpenFailed | ReadFailed

  /** What the task posted, and how it ended; `exit == None` means it is
      still blocked waiting for the next report. */
  datatype HidRun = HidRun(sent: seq<Command>, exit: Option<HidError>)

  predicate IsLayerInterface(d: DeviceInfo) {
    d.usagePage == LAYER_USAGE_PAGE && d.usageId == LAYER_USAGE_ID
  }

  /** `i` is the position of the last layer interface in `devices`. */
  ghost predicate IsLastMatch(devices: seq<DeviceInfo>, i: int) {
    && 0 <= i < |devices|
    && IsLayerInterface(devices[i])
    && forall j | i < j < |devices| :: !IsLayerInterface(devices[j])
  }

  /** The device-filter loop: walk the enumeration front to back and overwrite
      `found` with every device that is a layer interface. */
  function ScanDevices(devices: seq<DeviceInfo>, found: Option<DeviceInfo>): Option<DeviceInfo>
    decreases |devices|
  {
    if |devices| == 0 then found
    else ScanDevices(devices[1..], if IsLayerInterface(devices[0]) then Some(devices[0]) else found)
  }

  /** The scan ends holding the last layer interface, or what it started with
      when there is none. */
  lemma {:induction false} ScanDevicesKeepsLast(devices: seq<DeviceInfo>, found: Option<DeviceInfo>)
    ensures (forall i | 0 <= i < |devices| :: !IsLayerInterface(devices[i])) ==>
              ScanDevices(devices, found) == found
    ensures (exists i | 0 <= i < |devices| :: IsLayerInterface(devices[i])) ==>
              && ScanDevices(devices, found).Some?
              && exists i :: IsLastMatch(devices, i) && devices[i] == ScanDevices(devices, found).value
    decreases |devices|
  {
    if |devices| > 0 {
      var info := devices[0];
      var tail := devices[1..];
      var next := if IsLayerInterface(info) then Some(info) else found;
      ScanDevicesKeepsLast(tail, next);
      var r := ScanDevices(devices, found);
      assert r == ScanDevices(tail, next);
      assert forall j | 0 <= j < |tail| :: tail[j] == devices[j + 1];
      if exists k | 0 <= k < |tail| :: IsLayerInterface(tail[k]) {
        var i :| IsLastMatch(tail, i) && tail[i] == r.value;
        assert IsLastMatch(devices, i + 1);
      } else if IsLayerInterface(info) {
        assert IsLastMatch(devices, 0);
      } else {
        forall i | 0 <= i < |devices|
          ensures !IsLayerInterface(devices[i])
        {
          if i > 0 { assert devices[i] == tail[i - 1]; }
        }
      }
    }
  }

  /** The device the task opens: the last enumerated layer interface, if any. */
  function SelectDevice(devices: seq<DeviceInfo>): (r: Option<DeviceInfo>)
    ensures r.None? <==> forall i | 0 <= i < |devices| :: !IsLayerInterface(devices[i])
    ensures r.Some? ==> IsLayerInterface(r.value)
    ensures r.Some? ==> exists i :: IsLastMatch(devices, i) && devices[i] == r.value
  {
    ScanDevicesKeepsLast(devices, None);
    ScanDevices(devices, None)
  }

  /** There is only one last layer interface. */
  lemma LastMatchUnique(devices: seq<DeviceInfo>, i: int, k: int)
    requires IsLastMatch(devices, i) && IsLastMatch(devices, k)
    ensures i == k
  {
  }

  /** Appending a device to the enumeration: a match replaces the choice,
      anything else leaves it as it was. */
  lemma SelectDeviceSnoc(devices: seq<DeviceInfo>, d: DeviceInfo)
    ensures SelectDevice(devices + [d]) ==
              if IsLayerInterface(d) then Some(d) else SelectDevice(devices)
  {
    var ds := devices + [d];
    assert ds[|devices|] == d;
    assert forall j | 0 <= j < |devices| :: ds[j] == devices[j];
    if IsLayerInterface(d) {
      var i :| IsLastMatch(ds, i) && ds[i] == SelectDevice(ds).value;
      LastMatchUnique(ds, i, |devices|);
    } else if SelectDevice(ds).Some? {
      var i :| IsLastMatch(ds, i) && ds[i] == SelectDevice(ds).value;
      assert IsLastMatch(devices, i);
      var k :| IsLastMatch(devices, k) && devices[k] == SelectDevice(devices).value;
      LastMatchUnique(devices, i, k);
    }
  }

  /** The hard-coded colour of each layer the decoder knows (layers 0, 1, 2). */
  function LayerColor(layer: bv8): (c: Option<Rgb>)
  {
    if layer == 0 then Some(Rgb(0, 0, 255))
    else if layer == 1 then Some(Rgb(0, 255, 0))
    else if layer == 2 then Some(Rgb(255, 0, 0))
    else None
  }

  /** The command a single input report produces, if any. */
  function Decode(report: Report): (r: Option<Command>)
    ensures r.Some? <==> report[0] == LAYER_REPORT_TAG && report[1] < 3
    ensures r.Some? ==> r.value.SetColor?
  {
    if report[0] != LAYER_REPORT_TAG then None
    else
      match LayerColor(report[1])
      case None => None
      case Some(c) => Some(SetColor(c.r, c.g, c.b))
  }

  /** The layer a command announces: the inverse of the colour table. */
  function LayerOf(cmd: Command): (layer: Option<bv8>)
    ensures layer.Some? ==> layer.value < 3
  {
    if cmd == SetColor(0, 0, 255) then Some(0)
    else if cmd == SetColor(0, 255, 0) then Some(1)
    else if cmd == SetColor(255, 0, 0) then Some(2)
    else None
  }

  /** The report a keyboard sends when it enters `layer`: tag, layer, zero padding. */
  function LayerReport(layer: bv8): (report: Report)
    ensures report[0] == LAYER_REPORT_TAG && report[1] == layer
  {
    [LAYER_REPORT_TAG, layer] + seq(30, _ => 0)
  }

  /** Decoding a layer report of a known layer yields a command that names
      exactly that layer; an unknown layer yields nothing. */
  lemma DecodeLayerReport(layer: bv8)
    ensures layer < 3 ==> Decode(LayerReport(layer)).Some? &&
                          LayerOf(Decode(LayerReport(layer)).value) == Some(layer)
    ensures layer >= 3 ==> Decode(LayerReport(layer)) == None
  {
  }

  /** The three layer reports give the three hard-coded colours. */
  lemma DecodeKnownLayers(report: Report)
    requires report[0] == LAYER_REPORT_TAG
    ensures report[1] == 0 ==> Decode(report) == Some(SetColor(0, 0, 255))
    ensures report[1] == 1 ==> Decode(report) == Some(SetColor(0, 255, 0))
    ensures report[1] == 2 ==> Decode(report) == Some(SetColor(255, 0, 0))
  {
  }

  /** Only bytes 0 and 1 of a report affect what it decodes to. */
  lemma DecodeReadsOnlyHeader(a: Report, b: Report)
    requires a[0] == b[0] && a[1] == b[1]
    ensures Decode(a) == Decode(b)
  {
  }

  /** Every decoded command is a layer announcement, and it recovers byte 1. */
  lemma DecodeNamesLayer(report: Report)
    ensures Decode(report).Some? ==> LayerOf(Decode(report).value) == Some(report[1])
  {
  }

  /** The commands a decoded report contributes to the trace. */
  function Emitted(o: Option<Command>): (cmds: seq<Command>)
    ensures |cmds| <= 1
    ensures o.Some? <==> |cmds| == 1
    ensures o.Some? ==> cmds[0] == o.value
  {
    match o
    case None => []
    case Some(c) => [c]
  }

  /** The read loop: decode reports one by one until the first read error,
      which ends the task; there is no retry. */
  function ReadLoop(results: seq<ReadResult>): (run: HidRun)
    ensures |run.sent| <= |results|
    ensures run.exit.None? <==> forall i | 0 <= i < |results| :: results[i].Got?
    ensures run.exit.Some? ==> run.exit.value == ReadFailed
    ensures forall i | 0 <= i < |run.sent| :: run.sent[i].SetColor?
  {
    if |results| == 0 then HidRun([], None)
    else
      match results[0]
      case ReadError => HidRun([], Some(ReadFailed))
      case Got(report) =>
        var rest := ReadLoop(results[1..]);
        assert forall j | 0 <= j < |results| - 1 :: results[1..][j] == results[j + 1];
        HidRun(Emitted(Decode(report)) + rest.sent, rest.exit)
  }

  /** Reports the decoder skips leave no trace: the loop simply continues. */
  lemma ReadLoopSkips(report: Report, rest: seq<ReadResult>)
    requires Decode(report).None?
    ensures ReadLoop([Got(report)] + rest) == ReadLoop(rest)
  {
    assert ([Got(report)] + rest)[1..] == rest;
  }

  /** Whatever follows the first read error is never looked at. */
  lemma {:induction false} ReadLoopStopsAtError(before: seq<ReadResult>, after: seq<ReadResult>)
    ensures ReadLoop(before + [ReadError] + after) == ReadLoop(before + [ReadError])
  {
    if |before| == 0 {
      assert (before + [ReadError] + after)[0] == ReadError;
      assert (before + [ReadError])[0] == ReadError;
    } else {
      ReadLoopStopsAtError(before[1..], after);
      assert (before + [ReadError] + after)[1..] == before[1..] + [ReadError] + after;
      assert (before + [ReadError])[1..] == before[1..] + [ReadError];
    }
  }

  /** Reading a prefix that holds no error, then the rest, is the prefix's
      commands followed by the rest's. */
  lemma {:induction false} ReadLoopAppend(ok: seq<ReadResult>, rest: seq<ReadResult>)
    requires forall i | 0 <= i < |ok| :: ok[i].Got?
    ensures ReadLoop(ok + rest) == HidRun(ReadLoop(ok).sent + ReadLoop(rest).sent, ReadLoop(rest).exit)
  {
    if |ok| > 0 {
      ReadLoopAppend(ok[1..], rest);
      assert (ok + rest)[1..] == ok[1..] + rest;
      assert (ok + rest)[0] == ok[0];
      var head := Emitted(Decode(ok[0].report));
      assert ReadLoop(ok).sent == head + ReadLoop(ok[1..]).sent;
      assert ReadLoop(ok + rest).sent == head + (ReadLoop(ok[1..]).sent + ReadLoop(rest).sent);
    } else {
      assert ok + rest == rest;
    }
  }

  /** The commands a run of successfully read reports posts: each report's
      decoded command, if any, in order. */
  function LayerCommands(reports: seq<Report>): (cmds: seq<Command>)
  {
    if |reports| == 0 then []
    else Emitted(Decode(reports[0])) + LayerCommands(reports[1..])
  }

  /** Reads that all succeed, delivering the given reports in order. */
  function AllGot(reports: seq<Report>): (results: seq<ReadResult>)
    ensures |results| == |reports|
    ensures forall i | 0 <= i < |reports| :: results[i] == Got(reports[i])
  {
    seq(|reports|, i requires 0 <= i < |reports| => Got(reports[i]))
  }

  /** When every read succeeds, the read loop posts exactly the reference
      trace and keeps waiting. */
  lemma {:induction false} ReadLoopIsLayerCommands(reports: seq<Report>)
    ensures ReadLoop(AllGot(reports)) == HidRun(LayerCommands(reports), None)
    decreases |reports|
  {
    if |reports| > 0 {
      ReadLoopIsLayerCommands(reports[1..]);
      assert AllGot(reports)[1..] == AllGot(reports[1..]);
    }
  }

  /** Reference definition: the last known layer among the reports. */
  function LastKnownLayer(reports: seq<Report>): (layer: Option<bv8>)
    ensures layer.Some? ==> LayerColor(layer.value).Some?
    decreases |reports|
  {
    if |reports| == 0 then None
    else
      var last := reports[|reports| - 1];
      if Decode(last).Some? then Some(last[1]) else LastKnownLayer(reports[..|reports| - 1])
  }

  /** One more report adds its decoded command, if any, at the end. */
  lemma {:induction false} LayerCommandsSnoc(reports: seq<Report>, r: Report)
    ensures LayerCommands(reports + [r]) == LayerCommands(reports) + Emitted(Decode(r))
    decreases |reports|
  {
    if |reports| == 0 {
      assert (reports + [r])[1..] == [];
      assert (reports + [r])[0] == r;
    } else {
      LayerCommandsSnoc(reports[1..], r);
      assert (reports + [r])[1..] == reports[1..] + [r];
      assert (reports + [r])[0] == reports[0];
    }
  }

  /** The whole task, given the enumeration (None when it failed), whether
      opening the chosen device succeeded, and the results of the reads. */
  function HidTask(enumerated: Option<seq<DeviceInfo>>, openOk: bool, results: seq<ReadResult>): (run: HidRun)
    ensures enumerated.None? ==> run == HidRun([], Some(EnumerateFailed))
    ensures enumerated.Some? && (forall i | 0 <= i < |enumerated.value| :: !IsLayerInterface(enumerated.value[i])) ==>
              run == HidRun([], Some(NoDeviceFound))
    ensures enumerated.Some? && SelectDevice(enumerated.value).Some? && !openOk ==>
              run == HidRun([], Some(OpenFailed))
    ensures |run.sent| > 0 <==> enumerated.Some? && SelectDevice(enumerated.value).Some? && openOk
    ensures |run.sent| > 0 ==> run.sent[0] == SetColor(255, 0, 0) && run.sent[1..] == ReadLoop(results).sent
    ensures |run.sent| > 0 ==>
              (run.exit == Some(ReadFailed) <==> exists i | 0 <= i < |results| :: results[i].ReadError?)
    ensures |run.sent| > 0 ==> (run.exit.None? <==> forall i | 0 <= i < |results| :: results[i].Got?)
    ensures |run.sent| <= 1 + |results|
  {
    match enumerated
    case None => HidRun([], Some(EnumerateFailed))
    case Some(devices) =>
      match SelectDevice(devices)
      case None => HidRun([], Some(NoDeviceFound))
      case Some(_) =>
        if !openOk then HidRun([], Some(OpenFailed))
        else
          var loop := ReadLoop(results);
          HidRun([SetColor(255, 0, 0)] + loop.sent, loop.exit)
  }
}
