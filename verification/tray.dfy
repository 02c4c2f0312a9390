/** The system-tray bridge (src/tray.rs): the menu-id mapping, the
    Cool/Warm/Hot classification, the caller-side deduplication of icon
    commands, the tray thread's command loop, the readiness handshake of
    `SystemTray::new`, the order of the `Drop` shutdown, and the icon
    fallback chain.  Channels, the Win32 message pump and the icon library
    are abstract: each call into them is an `Outcome` parameter. */
module Tray {
  import opened Common
  import Ico

  // ---------------------------------------------------------------------
  // Messages from the tray to the application.

  datatype TrayMessage =
    | Exit | Pause | Resume | Settings | ShowLogs | InstallAutostart
    | UninstallAutostart | About | OpenConfig | OpenLogsFolder | OpenWebInterface

  /** The ids the mapping knows, in the order it lists them. */
  const MenuIds: seq<string> :=
    ["about", "pause", "resume", "settings", "show_logs", "open_config",
     "open_logs_folder", "autostart_install", "autostart_remove", "exit"]

  /** `menu_id_to_message`: "settings" opens the web interface, so the
      `Settings` message is never produced. */
  function MenuIdToMessage(id: string): (r: Option<TrayMessage>)
    ensures r.Some? <==> id in MenuIds
    ensures r != Some(Settings)
    ensures r == Some(OpenWebInterface) <==> id == "settings"
  {
    if id == "about" then Some(About)
    else if id == "pause" then Some(Pause)
    else if id == "resume" then Some(Resume)
    else if id == "settings" then Some(OpenWebInterface)
    else if id == "show_logs" then Some(ShowLogs)
    else if id == "open_config" then Some(OpenConfig)
    else if id == "open_logs_folder" then Some(OpenLogsFolder)
    else if id == "autostart_install" then Some(InstallAutostart)
    else if id == "autostart_remove" then Some(UninstallAutostart)
    else if id == "exit" then Some(Exit)
    else None
  }

  /** The menu item that produces a message, when one does. */
  function MenuIdOf(m: TrayMessage): Option<string>
  {
    match m
    case About => Some("about")
    case Pause => Some("pause")
    case Resume => Some("resume")
    case OpenWebInterface => Some("settings")
    case ShowLogs => Some("show_logs")
    case OpenConfig => Some("open_config")
    case OpenLogsFolder => Some("open_logs_folder")
    case InstallAutostart => Some("autostart_install")
    case UninstallAutostart => Some("autostart_remove")
    case Exit => Some("exit")
    case Settings => None
  }

  /** The mapping is a bijection between the known ids and every message
      except `Settings`. */
  lemma MenuMappingRoundTrip(id: string, m: TrayMessage)
    ensures MenuIdOf(m).Some? ==> MenuIdToMessage(MenuIdOf(m).value) == Some(m)
    ensures MenuIdToMessage(id) == Some(m) ==> MenuIdOf(m) == Some(id)
    ensures MenuIdOf(m).None? <==> m == Settings
  {
  }

  /** One entry of the tray menu, in display order. */
  datatype MenuEntry = Item(id: string) | Separator

  const Menu: seq<MenuEntry> :=
    [Item("about"), Separator, Item("pause"), Item("resume"), Separator,
     Item("settings"), Item("show_logs"), Item("open_config"), Item("open_logs_folder"), Separator,
     Item("autostart_install"), Item("autostart_remove"), Separator, Item("exit")]

  /** The menu built at start-up offers exactly the ids the mapping knows:
      every item's click yields a message, and every known id has an item. */
  lemma MenuItemsAreMapped()
    ensures forall i :: 0 <= i < |Menu| && Menu[i].Item? ==> Menu[i].id in MenuIds
    ensures forall j :: 0 <= j < |MenuIds| ==> Item(MenuIds[j]) in Menu
  {
  }

  /** The native icon events the thread handles. */
  datatype IconEvent = RightClick | DoubleClick | OtherEvent

  /** The icon-event handler: a double click asks for the web interface; a
      right click only shows the menu. */
  function OnIconEvent(e: IconEvent): (r: Option<TrayMessage>)
    ensures r.Some? <==> e == DoubleClick
    ensures r.Some? ==> r.value == OpenWebInterface
  {
    if e.DoubleClick? then Some(OpenWebInterface) else None
  }

  /** Neither handler ever sends `Settings`, and the two ways of opening the
      web interface are the settings item and the double click. */
  lemma SettingsNeverSent(id: string, e: IconEvent)
    ensures MenuIdToMessage(id) != Some(Settings) && OnIconEvent(e) != Some(Settings)
    ensures MenuIdToMessage(id) == Some(OpenWebInterface) || OnIconEvent(e) == Some(OpenWebInterface)
        <==> id == "settings" || e == DoubleClick
  {
  }

  // ---------------------------------------------------------------------
  // Icon states.

  datatype IconState = Cool | Warm | Hot

  function Rank(s: IconState): nat
  {
    match s
    case Cool => 0
    case Warm => 1
    case Hot => 2
  }

  /** Hot above the threshold, Warm within ten degrees below it (the
      threshold itself included), Cool otherwise. */
  function Classify(t: real, threshold: real): (s: IconState)
    ensures s == Hot <==> t > threshold
    ensures s == Warm <==> threshold - 10.0 < t <= threshold
    ensures s == Cool <==> t <= threshold - 10.0
  {
    if t > threshold then Hot
    else if t > threshold - 10.0 then Warm
    else Cool
  }

  /** A hotter reading never gets a cooler icon, and a lower threshold never
      a cooler one either. */
  lemma ClassifyMonotone(t1: real, t2: real, th1: real, th2: real)
    requires t1 <= t2 && th2 <= th1
    ensures Rank(Classify(t1, th1)) <= Rank(Classify(t2, th2))
  {
  }

  // ---------------------------------------------------------------------
  // The caller side: `update_icon_for_temperature`.

  datatype Command = UpdateIcon(state: IconState) | Shutdown

  /** The caller's state after the call, the command it put on the channel
      (if any), and what it returned. */
  datatype IconRequest = IconRequest(current: IconState, sent: Option<Command>, result: Result<(), string>)

  /** Send only on a change of state, and adopt the new state only once the
      send succeeded; a failed send is returned as the error. */
  function UpdateIconForTemperature(current: IconState, t: real, threshold: real, send: Outcome): (r: IconRequest)
    ensures r.sent.Some? <==> Classify(t, threshold) != current && send.Done?
    ensures r.sent.Some? ==> r.sent.value == UpdateIcon(r.current)
    ensures r.current != current ==> r.sent.Some?
    ensures r.result.Err? <==> Classify(t, threshold) != current && send.Failed?
    ensures r.result.Err? ==> r.current == current && r.result.error == send.reason
  {
    var s := Classify(t, threshold);
    if s != current then
      if send.Done? then IconRequest(s, Some(UpdateIcon(s)), Ok(()))
      else IconRequest(current, None, Err(send.reason))
    else IconRequest(current, None, Ok(()))
  }

  /** One call of the monitoring loop: a reading, the threshold, and how the
      channel took the command if one was sent. */
  datatype Sample = Sample(temperature: real, threshold: real, send: Outcome)

  datatype CallerRun = CallerRun(current: IconState, sent: seq<IconState>)

  /** The caller folded over its calls, collecting the states it sent. */
  function RunCaller(current: IconState, samples: seq<Sample>): CallerRun
    decreases |samples|
  {
    if |samples| == 0 then CallerRun(current, [])
    else
      var s := samples[0];
      var r := UpdateIconForTemperature(current, s.temperature, s.threshold, s.send);
      var rest := RunCaller(r.current, samples[1..]);
      CallerRun(rest.current, (if r.sent.Some? then [r.current] else []) + rest.sent)
  }

  /** The caller never sends the same state twice in a row nor the state it
      already holds, and it holds the last state it sent. */
  lemma {:induction false} CallerNeverRepeats(current: IconState, samples: seq<Sample>)
    ensures var r := RunCaller(current, samples);
      && (|r.sent| > 0 ==> r.sent[0] != current)
      && (forall i :: 0 <= i < |r.sent| - 1 ==> r.sent[i] != r.sent[i + 1])
      && r.current == (if |r.sent| == 0 then current else r.sent[|r.sent| - 1])
    decreases |samples|
  {
    if |samples| > 0 {
      var s := samples[0];
      var q := UpdateIconForTemperature(current, s.temperature, s.threshold, s.send);
      CallerNeverRepeats(q.current, samples[1..]);
    }
  }

  // ---------------------------------------------------------------------
  // The tray thread: `run_tray_event_loop` after initialisation.

  /** What one `recv_timeout` gave the thread.  For an icon update, `load`
      and `set` are what loading the icon and `set_icon` would report. */
  datatype Received =
    | Update(state: IconState, load: Outcome, setIcon: Outcome)
    | ShutdownSignal
    | TimedOut
    | Disconnected

  predicate Ends(r: Received)
  {
    r.ShutdownSignal? || r.Disconnected?
  }

  /** One iteration that does not leave the loop: an update to a different
      state is adopted only when both the load and `set_icon` succeeded. */
  function ThreadStep(current: IconState, r: Received): (next: IconState)
    requires !Ends(r)
    ensures next != current ==> r.Update? && r.state == next && r.load.Done? && r.setIcon.Done?
    ensures r.Update? && r.load.Done? && r.setIcon.Done? ==> next == r.state
    ensures r.TimedOut? || (r.Update? && r.state == current) ==> next == current
  {
    match r
    case Update(s, load, setIcon) =>
      if s != current && load.Done? && setIcon.Done? then s else current
    case TimedOut => current
  }

  datatype LoopEnd = LoopEnd(state: IconState, stopped: bool)

  /** The loop folded over what it receives; it leaves at the first
      shutdown or disconnection and reads nothing after it. */
  function RunLoop(current: IconState, rs: seq<Received>): (e: LoopEnd)
    ensures e.stopped <==> exists i :: 0 <= i < |rs| && Ends(rs[i])
    decreases |rs|
  {
    if |rs| == 0 then LoopEnd(current, false)
    else if Ends(rs[0]) then LoopEnd(current, true)
    else RunLoop(ThreadStep(current, rs[0]), rs[1..])
  }

  /** What the loop reads before it leaves: everything up to the first
      shutdown or disconnection. */
  function UntilStop(rs: seq<Received>): (p: seq<Received>)
    ensures |p| <= |rs| && p == rs[..|p|]
    ensures forall i :: 0 <= i < |p| ==> !Ends(p[i])
    ensures |p| < |rs| ==> Ends(rs[|p|])
  {
    if |rs| == 0 || Ends(rs[0]) then [] else [rs[0]] + UntilStop(rs[1..])
  }

  /** The reference: the state of the last update whose load and set both
      succeeded, or the start state when there is none. */
  function LastSuccess(start: IconState, rs: seq<Received>): IconState
  {
    if |rs| == 0 then start
    else
      var r := rs[|rs| - 1];
      if r.Update? && r.load.Done? && r.setIcon.Done? then r.state
      else LastSuccess(start, rs[..|rs| - 1])
  }

  lemma {:induction false} LastSuccessCons(start: IconState, r: Received, rest: seq<Received>)
    requires !Ends(r)
    ensures LastSuccess(start, [r] + rest) == LastSuccess(ThreadStep(start, r), rest)
  {
    if |rest| > 0 {
      assert ([r] + rest)[..|[r] + rest| - 1] == [r] + rest[..|rest| - 1];
      LastSuccessCons(start, r, rest[..|rest| - 1]);
    } else {
      assert ([r] + rest)[..0] == [];
    }
  }

  /** The thread ends in the state of the last fully successful update it
      read before stopping: failed loads or sets, timeouts and repeated
      states never move it, and nothing after the stop is read. */
  lemma {:induction false} RunLoopIsLastSuccess(start: IconState, rs: seq<Received>)
    ensures RunLoop(start, rs).state == LastSuccess(start, UntilStop(rs))
    decreases |rs|
  {
    if |rs| > 0 && !Ends(rs[0]) {
      RunLoopIsLastSuccess(ThreadStep(start, rs[0]), rs[1..]);
      LastSuccessCons(start, rs[0], UntilStop(rs[1..]));
    }
  }

  /** The commands the caller sent, each delivered with a successful load
      and set. */
  function Delivered(sent: seq<IconState>): (rs: seq<Received>)
    ensures |rs| == |sent|
    ensures forall i :: 0 <= i < |rs| ==> rs[i] == Update(sent[i], Done, Done)
  {
    if |sent| == 0 then [] else [Update(sent[0], Done, Done)] + Delivered(sent[1..])
  }

  lemma {:induction false} LastSuccessOfDelivered(start: IconState, sent: seq<IconState>)
    ensures LastSuccess(start, Delivered(sent)) == (if |sent| == 0 then start else sent[|sent| - 1])
    ensures UntilStop(Delivered(sent)) == Delivered(sent)
  {
    var d := Delivered(sent);
    if |sent| > 0 {
      assert d[..|d| - 1] == Delivered(sent[..|sent| - 1]);
      LastSuccessOfDelivered(start, sent[..|sent| - 1]);
    }
    assert forall i :: 0 <= i < |d| ==> !Ends(d[i]);
  }

  /** Both sides start in Cool; when every command the caller sent reaches
      the thread and its icon loads and sets, the thread shows the state
      the caller believes it shows. */
  lemma BridgeAgrees(samples: seq<Sample>)
    ensures RunLoop(Cool, Delivered(RunCaller(Cool, samples).sent)).state == RunCaller(Cool, samples).current
  {
    var sent := RunCaller(Cool, samples).sent;
    CallerNeverRepeats(Cool, samples);
    RunLoopIsLastSuccess(Cool, Delivered(sent));
    LastSuccessOfDelivered(Cool, sent);
  }

  /** The caller adopts a state once the send succeeds, not once the icon is
      shown: when the thread cannot load the icon, the caller does not send
      the state again, and the two sides disagree until the state changes. */
  lemma FailedLoadIsNotRetried()
    ensures var r := RunCaller(Cool, [Sample(80.0, 60.0, Done), Sample(85.0, 60.0, Done)]);
      && r.current == Hot && r.sent == [Hot]
      && RunLoop(Cool, [Update(Hot, Failed("no icon"), Done)]).state == Cool
  {
    var samples := [Sample(80.0, 60.0, Done), Sample(85.0, 60.0, Done)];
    assert samples[1..] == [Sample(85.0, 60.0, Done)];
    assert samples[1..][1..] == [];
  }

  // ---------------------------------------------------------------------
  // Icon loading: `load_icon_for_state`.

  function IconFileName(s: IconState): string
  {
    match s
    case Cool => "icons/thermometer-cool.ico"
    case Warm => "icons/thermometer-warm.ico"
    case Hot => "icons/thermometer-hot.ico"
  }

  const FallbackIconFile: string := "icons/icon.ico"

  /** What the file system holds at an icon path. */
  datatype IconFile = Missing | Unreadable(reason: string) | Loadable

  datatype IconSource = FromFile(path: string) | Programmatic(rgba: seq<byte>)

  /** The state's own file if it exists and loads, else the generic icon if
      it exists and loads, else a programmatic image, whose conversion
      (`fromRgba`) may still fail. */
  function LoadIconForState(s: IconState, stateFile: IconFile, fallbackFile: IconFile, fromRgba: Outcome)
    : (r: Result<IconSource, string>)
    ensures stateFile.Loadable? ==> r == Ok(FromFile(IconFileName(s)))
    ensures !stateFile.Loadable? && fallbackFile.Loadable? ==> r == Ok(FromFile(FallbackIconFile))
    ensures r.Err? <==> !stateFile.Loadable? && !fallbackFile.Loadable? && fromRgba.Failed?
    ensures r.Ok? && r.value.Programmatic? ==> r.value.rgba == RgbaImage(s)
  {
    if stateFile.Loadable? then Ok(FromFile(IconFileName(s)))
    else if fallbackFile.Loadable? then Ok(FromFile(FallbackIconFile))
    else if fromRgba.Done? then Ok(Programmatic(RgbaImage(s)))
    else Err(fromRgba.reason)
  }

  /** Each state has its own file. */
  lemma IconFilesDistinct(s1: IconState, s2: IconState)
    ensures IconFileName(s1) == IconFileName(s2) <==> s1 == s2
    ensures IconFileName(s1) != FallbackIconFile
  {
  }

  /** The fill colours of the programmatic image, red first. */
  function RgbaFill(s: IconState): seq<byte>
  {
    match s
    case Cool => [0, 255, 0, 255]
    case Warm => [255, 165, 0, 255]
    case Hot => [255, 0, 0, 255]
  }

  function RgbaPixel(k: Ico.PixelKind, s: IconState): seq<byte>
  {
    match k
    case Tube => RgbaFill(s)
    case Bulb => RgbaFill(s)
    case TubeOutline => [0, 0, 0, 255]
    case BulbOutline => [0, 0, 0, 255]
    case Background => [0, 0, 0, 0]
  }

  /** `create_simple_rgba_image_for_state`: 16x16 pixels, rows top-down,
      four bytes each, by the same first-match rule as the ICO scripts. */
  function RgbaImage(s: IconState): (img: seq<byte>)
    ensures |img| == 1024
  {
    seq(1024, k requires 0 <= k < 1024 => RgbaPixel(Ico.KindAt((k / 4) % 16, (k / 4) / 16), s)[k % 4])
  }

  /** The ICO file the scripts generate for a state. */
  function IcoColour(s: IconState): Ico.Bgra
  {
    match s
    case Cool => Ico.CoolColour
    case Warm => Ico.WarmColour
    case Hot => Ico.HotColour
  }

  function RgbaOf(c: Ico.Bgra): seq<byte>
  {
    [c.r, c.g, c.b, c.a]
  }

  /** The programmatic image draws the same thermometer in the same colours
      as the generated ICO file for that state: each pixel is the file's
      pixel with blue and red swapped back. */
  lemma ProgrammaticMatchesIcoFiles(s: IconState, x: nat, y: nat)
    requires x < 16 && y < 16
    ensures RgbaImage(s)[64 * y + 4 * x .. 64 * y + 4 * x + 4]
         == RgbaOf(Ico.ColourOf(Ico.KindAt(x, y), IcoColour(s)))
  {
    var base := 64 * y + 4 * x;
    forall j | 0 <= j < 4
      ensures RgbaImage(s)[base + j] == RgbaOf(Ico.ColourOf(Ico.KindAt(x, y), IcoColour(s)))[j]
    {
      var k := base + j;
      assert k / 4 == 16 * y + x;
      assert k % 4 == j;
      assert (k / 4) % 16 == x && (k / 4) / 16 == y;
    }
  }

  // ---------------------------------------------------------------------
  // Start-up: the readiness handshake of `SystemTray::new`.

  /** How start-up ended: what `new` returned, what the thread put on the
      readiness channel (nothing when it returned early), and whether the
      event handlers are still installed afterwards. */
  datatype Startup = Startup(
    result: Result<IconState, string>,
    ready: Option<Result<(), string>>,
    handlersInstalled: bool)

  /** The message a receiver sees when the sender was dropped unsent. */
  const RecvErrorMessage: string := "receiving on a closed channel"

  /** `SystemTray::new` with the thread's initialisation: spawn, install the
      two handlers, build the menu (a failure leaves the thread by `?`
      without a readiness message), load the Cool icon, build the tray icon.
      A load or build failure is reported on the channel, the handlers are
      cleared, and the same message is returned by `new`.  On success both
      sides start in Cool. */
  function NewTray(spawn: Outcome, menu: Outcome, initialIcon: Result<IconSource, string>, build: Outcome)
    : (r: Startup)
    ensures r.result.Ok? <==> r.ready == Some(Ok(()))
    ensures r.result.Ok? ==> r.result.value == Cool && r.handlersInstalled
    ensures r.ready.Some? && r.ready.value.Err? ==> r.result == Err(r.ready.value.error) && !r.handlersInstalled
    ensures r.result.Ok? <==> spawn.Done? && menu.Done? && initialIcon.Ok? && build.Done?
    ensures initialIcon.Err? && spawn.Done? && menu.Done? ==>
      r.result == Err("Failed to load initial tray icon: " + initialIcon.error)
    ensures spawn.Done? && menu.Failed? ==> r.ready.None? && r.result == Err(RecvErrorMessage) && r.handlersInstalled
  {
    if spawn.Failed? then Startup(Err(spawn.reason), None, false)
    else if menu.Failed? then Startup(Err(RecvErrorMessage), None, true)
    else if initialIcon.Err? then
      var msg := "Failed to load initial tray icon: " + initialIcon.error;
      Startup(Err(msg), Some(Err(msg)), false)
    else if build.Failed? then
      var msg := "Failed to create tray icon: " + build.reason;
      Startup(Err(msg), Some(Err(msg)), false)
    else Startup(Ok(Cool), Some(Ok(())), true)
  }

  /** What the thread's `match` on `load_icon_for_state` sees. */
  function Loaded(r: Result<IconSource, string>): (o: Outcome)
    ensures o.Done? <==> r.Ok?
    ensures r.Err? ==> o == Failed(r.error)
  {
    if r.Ok? then Done else Failed(r.error)
  }

  /** An update with the icon loaded by `load_icon_for_state` is adopted
      exactly when the state changes, some source for it is available (its
      own file, the generic file or the programmatic image), and `set_icon`
      succeeds. */
  lemma LoadedIconFeedsThread(current: IconState, s: IconState, stateFile: IconFile, fallbackFile: IconFile,
                              fromRgba: Outcome, setIcon: Outcome)
    ensures ThreadStep(current, Update(s, Loaded(LoadIconForState(s, stateFile, fallbackFile, fromRgba)), setIcon))
         == (if s != current && (stateFile.Loadable? || fallbackFile.Loadable? || fromRgba.Done?) && setIcon.Done?
             then s else current)
  {
  }

  /** Start-up with the Cool icon loaded by `load_icon_for_state` succeeds
      exactly when some source for it is available (spawn, menu and build
      succeeding); then the thread starts in the state the caller starts
      in, so the delivered commands leave both sides agreeing. */
  lemma StartedTrayAgrees(stateFile: IconFile, fallbackFile: IconFile, fromRgba: Outcome, samples: seq<Sample>)
    ensures var t := NewTray(Done, Done, LoadIconForState(Cool, stateFile, fallbackFile, fromRgba), Done);
      && (t.result.Ok? <==> stateFile.Loadable? || fallbackFile.Loadable? || fromRgba.Done?)
      && (t.result.Ok? ==>
            RunLoop(t.result.value, Delivered(RunCaller(Cool, samples).sent)).state == RunCaller(Cool, samples).current)
  {
    BridgeAgrees(samples);
  }

  // ---------------------------------------------------------------------
  // Shutdown: `Drop for SystemTray`.

  datatype DropStep = SendShutdown | JoinThread | ClearHandlers

  datatype Dropped = Dropped(steps: seq<DropStep>, warnings: nat)

  /** Send `Shutdown`, join the thread if a handle is held, clear the
      handlers; each failure is only logged as a warning. */
  function Drop(hasHandle: bool, send: Outcome, join: Outcome): (d: Dropped)
    ensures |d.steps| >= 2
    ensures d.steps[0] == SendShutdown && d.steps[|d.steps| - 1] == ClearHandlers
    ensures JoinThread in d.steps <==> hasHandle
    ensures d.warnings == (if send.Failed? then 1 else 0) + (if hasHandle && join.Failed? then 1 else 0)
  {
    Dropped([SendShutdown] + (if hasHandle then [JoinThread] else []) + [ClearHandlers],
            (if send.Failed? then 1 else 0) + (if hasHandle && join.Failed? then 1 else 0))
  }

  /** Failures change nothing about what is attempted: the steps depend only
      on whether a thread handle is held. */
  lemma DropStepsIgnoreFailures(hasHandle: bool, s1: Outcome, j1: Outcome, s2: Outcome, j2: Outcome)
    ensures Drop(hasHandle, s1, j1).steps == Drop(hasHandle, s2, j2).steps
  {
  }

  /** The shutdown signal reaches a running thread: once `Shutdown` is
      received the loop stops, whatever follows. */
  lemma ShutdownStopsLoop(current: IconState, before: seq<Received>, after: seq<Received>)
    requires forall i :: 0 <= i < |before| ==> !Ends(before[i])
    ensures RunLoop(current, before + [ShutdownSignal] + after).stopped
    ensures RunLoop(current, before + [ShutdownSignal] + after) == RunLoop(current, before + [ShutdownSignal])
  {
    var rs := before + [ShutdownSignal] + after;
    assert rs[|before|] == ShutdownSignal;
    RunLoopIsLastSuccess(current, rs);
    RunLoopIsLastSuccess(current, before + [ShutdownSignal]);
    UntilStopPrefix(before, after);
  }

  lemma {:induction false} UntilStopPrefix(before: seq<Received>, after: seq<Received>)
    requires forall i :: 0 <= i < |before| ==> !Ends(before[i])
    ensures UntilStop(before + [ShutdownSignal] + after) == before
    ensures UntilStop(before + [ShutdownSignal]) == before
  {
    if |before| > 0 {
      assert (before + [ShutdownSignal] + after)[1..] == before[1..] + [ShutdownSignal] + after;
      assert (before + [ShutdownSignal])[1..] == before[1..] + [ShutdownSignal];
      UntilStopPrefix(before[1..], after);
    }
  }
}
