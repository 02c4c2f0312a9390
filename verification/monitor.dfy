/** The application's decisions (src/main.rs): one monitoring cycle over
    the sensor readings, the sleep that follows it, the command-line
    dispatch, autostart detection, the start-up autostart repair, the NVML
    retry at start-up, and the start-up configuration load.  Locks, channels
    and sensors are parameters: the readings (or the sensor error), whether
    the notification manager's lock was free, whether a tray channel
    exists, the clock. */
module Monitor {
  import opened Common
  import opened AppConfig
  import WebState
  import Notifications
  import Logger

  datatype Reading = Reading(sensorName: string, temperature: real)

  // ---------------------------------------------------------------------
  // The over-threshold scan.

  /** What the loop over the readings accumulates. */
  datatype Scan = Scan(any: bool, maxTemp: real, hottest: string)

  /** One turn of the loop: an over-threshold reading sets the flag and
      becomes the hottest when strictly hotter than the best so far. */
  function ScanStep(s: Scan, r: Reading, threshold: real): Scan
  {
    if r.temperature > threshold then
      if r.temperature > s.maxTemp then Scan(true, r.temperature, r.sensorName) else s.(any := true)
    else s
  }

  /** The loop folded over the readings, starting from no flag, 0 and "". */
  function ScanAll(rs: seq<Reading>, threshold: real): Scan
    decreases |rs|
  {
    if |rs| == 0 then Scan(false, 0.0, "")
    else ScanStep(ScanAll(rs[..|rs| - 1], threshold), rs[|rs| - 1], threshold)
  }

  /** The earliest over-threshold reading at the maximum. */
  predicate HottestAt(rs: seq<Reading>, threshold: real, s: Scan, i: int)
  {
    && 0 <= i < |rs|
    && rs[i].temperature > threshold
    && rs[i].temperature == s.maxTemp
    && rs[i].sensorName == s.hottest
    && (forall j :: 0 <= j < i ==> rs[j].temperature < s.maxTemp)
  }

  /** The scan's meaning: the flag says some reading is strictly above the
      threshold; the maximum covers over-threshold readings only and is at
      least 0; the hottest sensor is the first reading reaching a positive
      maximum, and "" when the maximum stayed 0. */
  lemma {:induction false} ScanSpec(rs: seq<Reading>, threshold: real)
    ensures var s := ScanAll(rs, threshold);
      && (s.any <==> exists i :: 0 <= i < |rs| && rs[i].temperature > threshold)
      && s.maxTemp >= 0.0
      && (forall i :: 0 <= i < |rs| && rs[i].temperature > threshold ==> rs[i].temperature <= s.maxTemp)
      && (s.maxTemp == 0.0 ==> s.hottest == "")
      && (s.maxTemp > 0.0 ==> exists i :: HottestAt(rs, threshold, s, i))
    decreases |rs|
  {
    if |rs| > 0 {
      var p := rs[..|rs| - 1];
      var r := rs[|rs| - 1];
      ScanSpec(p, threshold);
      var sp := ScanAll(p, threshold);
      var s := ScanAll(rs, threshold);
      assert forall i :: 0 <= i < |p| ==> rs[i] == p[i];
      if sp.maxTemp > 0.0 {
        var w :| HottestAt(p, threshold, sp, w);
        if s == sp || s == sp.(any := true) {
          assert HottestAt(rs, threshold, s, w);
        }
      }
      if r.temperature > threshold && r.temperature > sp.maxTemp {
        assert forall j :: 0 <= j < |p| ==> rs[j].temperature < r.temperature;
        assert HottestAt(rs, threshold, s, |p|);
      }
      if s.any && !sp.any {
        assert rs[|p|].temperature > threshold;
      }
    }
  }

  /** The loop of `monitor_temperatures_cycle` over the readings. */
  method Summarize(rs: seq<Reading>, threshold: real) returns (any: bool, maxTemp: real, hottest: string)
    ensures Scan(any, maxTemp, hottest) == ScanAll(rs, threshold)
    ensures any <==> exists i :: 0 <= i < |rs| && rs[i].temperature > threshold
    ensures forall i :: 0 <= i < |rs| && rs[i].temperature > threshold ==> rs[i].temperature <= maxTemp
  {
    any := false;
    maxTemp := 0.0;
    hottest := "";
    var k := 0;
    while k < |rs|
      invariant 0 <= k <= |rs|
      invariant Scan(any, maxTemp, hottest) == ScanAll(rs[..k], threshold)
    {
      var temp := rs[k].temperature;
      if temp > threshold {
        any := true;
        if temp > maxTemp {
          maxTemp := temp;
          hottest := rs[k].sensorName;
        }
      }
      assert rs[..k + 1][..k] == rs[..k];
      k := k + 1;
    }
    assert rs[..k] == rs;
    ScanSpec(rs, threshold);
  }

  // ---------------------------------------------------------------------
  // The dashboard reading.

  /** `fold(0.0, f32::max)` over every reading. */
  function AllMax(rs: seq<Reading>): real
    decreases |rs|
  {
    if |rs| == 0 then 0.0 else MaxReal(AllMax(rs[..|rs| - 1]), rs[|rs| - 1].temperature)
  }

  /** The fold is the maximum of 0 and all readings. */
  lemma {:induction false} AllMaxSpec(rs: seq<Reading>)
    ensures AllMax(rs) >= 0.0
    ensures forall i :: 0 <= i < |rs| ==> rs[i].temperature <= AllMax(rs)
    ensures AllMax(rs) == 0.0 || exists i :: 0 <= i < |rs| && rs[i].temperature == AllMax(rs)
    decreases |rs|
  {
    if |rs| > 0 {
      var p := rs[..|rs| - 1];
      AllMaxSpec(p);
      assert forall i :: 0 <= i < |p| ==> rs[i] == p[i];
      if AllMax(rs) != 0.0 && AllMax(rs) != rs[|rs| - 1].temperature {
        var w :| 0 <= w < |p| && p[w].temperature == AllMax(p);
        assert rs[w].temperature == AllMax(rs);
      }
    }
  }

  datatype View = View(temperature: Option<real>, status: string)

  const Connected: string := "Connected"
  const ReadError: string := "Error reading temperature"

  /** The dashboard's reading and status: the maximum of all readings when
      positive, otherwise none and an error status. */
  function DashboardView(rs: seq<Reading>): (v: View)
    ensures v.temperature.Some? <==> v.status == Connected
    ensures v.temperature.Some? ==> v.temperature.value == AllMax(rs) && AllMax(rs) > 0.0
  {
    var m := AllMax(rs);
    if m > 0.0 then View(Some(m), Connected) else View(None, ReadError)
  }

  /** The older `monitor_temperatures` (src/main.rs:711-802), which the
      program no longer calls, took the over-threshold maximum instead. */
  function LegacyDashboardView(rs: seq<Reading>, threshold: real): View
  {
    var m := ScanAll(rs, threshold).maxTemp;
    if m > 0.0 then View(Some(m), Connected) else View(None, ReadError)
  }

  /** The two views agree as soon as one reading is above the threshold. */
  lemma ViewsAgreeWhenOverThreshold(rs: seq<Reading>, threshold: real)
    requires ScanAll(rs, threshold).any
    ensures LegacyDashboardView(rs, threshold) == DashboardView(rs)
  {
    ScanSpec(rs, threshold);
    AllMaxSpec(rs);
    var s := ScanAll(rs, threshold);
    var i :| 0 <= i < |rs| && rs[i].temperature > threshold;
    if AllMax(rs) != 0.0 {
      var k :| 0 <= k < |rs| && rs[k].temperature == AllMax(rs);
      assert rs[k].temperature >= rs[i].temperature > threshold;
    }
    if s.maxTemp > 0.0 {
      var w :| HottestAt(rs, threshold, s, w);
    }
  }

  /** With every reading at or below the threshold the current cycle shows
      the hottest reading, while the older code reported a read error. */
  lemma ViewsDivergeWhenNormal(rs: seq<Reading>, threshold: real, k: nat)
    requires k < |rs| && rs[k].temperature > 0.0
    requires forall i :: 0 <= i < |rs| ==> rs[i].temperature <= threshold
    ensures DashboardView(rs).status == Connected
    ensures LegacyDashboardView(rs, threshold) == View(None, ReadError)
  {
    ScanSpec(rs, threshold);
    AllMaxSpec(rs);
  }

  // ---------------------------------------------------------------------
  // Log entries of a cycle.

  const WarnLevel: string := "WARN"
  const InfoLevel: string := "INFO"

  /** One dashboard entry per reading, in order, WARN above the threshold
      and INFO otherwise; `render` stands for the `{name}: {:.1}°C` text. */
  function WebLogEntries(rs: seq<Reading>, threshold: real, stamp: string, render: Reading -> string)
    : (e: seq<WebState.LogEntry>)
    ensures |e| == |rs|
    ensures forall i :: 0 <= i < |rs| ==>
      e[i] == WebState.LogEntry(stamp, if rs[i].temperature > threshold then WarnLevel else InfoLevel, render(rs[i]))
  {
    seq(|rs|, i requires 0 <= i < |rs| =>
      WebState.LogEntry(stamp, if rs[i].temperature > threshold then WarnLevel else InfoLevel, render(rs[i])))
  }

  /** The `log_temperature!` call made for each reading. */
  function TemperatureLogs(rs: seq<Reading>, threshold: real): (l: seq<Logger.TemperatureLog>)
    ensures |l| == |rs|
    ensures forall i :: 0 <= i < |rs| ==>
      l[i] == Logger.LogTemperature(rs[i].sensorName, rs[i].temperature, threshold)
  {
    seq(|rs|, i requires 0 <= i < |rs| => Logger.LogTemperature(rs[i].sensorName, rs[i].temperature, threshold))
  }

  /** The dashboard entry and the logger entry for a reading agree on its
      level. */
  lemma LogLevelsAgree(rs: seq<Reading>, threshold: real, stamp: string, render: Reading -> string, i: nat)
    requires i < |rs|
    ensures WebLogEntries(rs, threshold, stamp, render)[i].level
         == Logger.AsStr(TemperatureLogs(rs, threshold)[i].level)
  {
  }

  // ---------------------------------------------------------------------
  // One cycle.

  /** What the cycle puts on the tray channel (its consumer only logs it). */
  datatype TrayIconUpdate = TrayIconUpdate(temperature: real, threshold: real)

  /** The arguments of `send_temperature_alert`: the hottest sensor, its
      temperature and the threshold. */
  datatype Alert = Alert(sensor: string, temperature: real, threshold: real)

  /** The alert of a cycle whose `should_notify` said `fire`: it names the
      scan's hottest sensor and carries the scan's maximum.  When a reading
      is above the threshold, the temperature is above the threshold and no
      over-threshold reading exceeds it; a positive one is the first
      over-threshold sensor at the maximum, while over-threshold readings
      that are all at most 0 (a negative threshold) leave "" and 0. */
  function AlertFor(rs: seq<Reading>, threshold: real, fire: bool): (a: Option<Alert>)
    ensures a.Some? <==> fire
    ensures fire && (exists i :: 0 <= i < |rs| && rs[i].temperature > threshold) ==>
      && a.value.threshold == threshold
      && a.value.temperature > threshold
      && (forall i :: 0 <= i < |rs| && rs[i].temperature > threshold ==> rs[i].temperature <= a.value.temperature)
      && (a.value.temperature > 0.0 ==>
            exists i :: HottestAt(rs, threshold, ScanAll(rs, threshold), i)
                        && rs[i].sensorName == a.value.sensor
                        && rs[i].temperature == a.value.temperature)
      && (a.value.temperature <= 0.0 ==> a.value == Alert("", 0.0, threshold))
  {
    ScanSpec(rs, threshold);
    var s := ScanAll(rs, threshold);
    if fire then Some(Alert(s.hottest, s.maxTemp, threshold)) else None
  }

  datatype CycleOutcome = CycleOutcome(
    result: Result<nat, string>,
    web: WebState.AppState,
    manager: Notifications.NotificationManager,
    alert: Option<Alert>,
    temperatureLogs: seq<Logger.TemperatureLog>,
    guiTemperature: Option<real>,
    trayUpdate: Option<TrayIconUpdate>)

  /** `monitor_temperatures_cycle` with the configuration it reads from the
      shared cell: a sensor error is returned; no readings return the poll
      interval and touch nothing; otherwise scan, log each reading, show the
      maximum of all readings on the dashboard, refresh the dashboard's
      configuration, add one dashboard entry per reading, offer the tray
      its update, and, when the manager's lock is free, ask `should_notify`
      and send the alert on a yes. */
  function MonitorCycle(sensors: Result<seq<Reading>, string>, config: Config, web: WebState.AppState,
                        m: Notifications.NotificationManager, managerFree: bool, traySender: bool,
                        now: nat, stamp: string, render: Reading -> string): (r: CycleOutcome)
    requires managerFree && sensors.Ok? ==>
      Notifications.CanDecide(m, ScanAll(sensors.value, config.temperatureThresholdC).any, now)
    ensures sensors.Err? ==> r == CycleOutcome(Err(sensors.error), web, m, None, [], None, None)
    ensures sensors.Ok? ==> r.result == Ok(config.pollIntervalSec)
    ensures sensors == Ok([]) ==> r == CycleOutcome(Ok(config.pollIntervalSec), web, m, None, [], None, None)
    ensures !managerFree ==> r.alert.None? && r.manager == m
  {
    match sensors
    case Err(e) => CycleOutcome(Err(e), web, m, None, [], None, None)
    case Ok(rs) =>
      if |rs| == 0 then CycleOutcome(Ok(config.pollIntervalSec), web, m, None, [], None, None)
      else
        var th := config.temperatureThresholdC;
        var s := ScanAll(rs, th);
        var v := DashboardView(rs);
        var shown := WebState.UpdateTemperature(web, v.temperature, v.status, stamp).(config := config);
        var logged := WebState.AddLogs(shown, WebLogEntries(rs, th, stamp, render));
        var tray := if traySender then Some(TrayIconUpdate(AllMax(rs), th)) else None;
        var d := if managerFree then Notifications.NotifyStep(m, s.any, now) else Notifications.Decision(false, m);
        CycleOutcome(Ok(config.pollIntervalSec), logged, d.next, AlertFor(rs, th, d.fire), TemperatureLogs(rs, th), Some(s.maxTemp), tray)
  }

  /** What a cycle with readings does: the dashboard shows the maximum of
      all readings and the current configuration, keeps the newest entries
      of its ring with this cycle's entries last, the tray is offered that
      maximum, and the alert goes out exactly when the lock was free and
      `should_notify` said yes for "some reading is above the threshold". */
  lemma CycleEffects(rs: seq<Reading>, config: Config, web: WebState.AppState,
                     m: Notifications.NotificationManager, managerFree: bool, traySender: bool,
                     now: nat, stamp: string, render: Reading -> string)
    requires |rs| > 0 && WebState.RingBounded(web)
    requires managerFree ==> Notifications.CanDecide(m, ScanAll(rs, config.temperatureThresholdC).any, now)
    ensures var r := MonitorCycle(Ok(rs), config, web, m, managerFree, traySender, now, stamp, render);
      var th := config.temperatureThresholdC;
      var hot := exists i :: 0 <= i < |rs| && rs[i].temperature > th;
      && r.web.config == config
      && r.web.currentTemperature == DashboardView(rs).temperature
      && r.web.gpuConnectionStatus == DashboardView(rs).status
      && r.web.recentLogs == WebState.LastN(web.recentLogs + WebLogEntries(rs, th, stamp, render), WebState.MaxRecentLogs)
      && WebState.RingBounded(r.web)
      && r.trayUpdate == (if traySender then Some(TrayIconUpdate(AllMax(rs), th)) else None)
      && (ScanAll(rs, th).any <==> hot)
      && (r.alert.Some? <==> managerFree && Notifications.ShouldNotify(m, ScanAll(rs, th).any, now).fire)
      && (r.alert.Some? ==> hot && r.manager.cooldownLevel == m.cooldownLevel + 1)
      && (managerFree && !hot ==> Notifications.Quiet(r.manager))
      && |r.temperatureLogs| == |rs|
  {
    var th := config.temperatureThresholdC;
    ScanSpec(rs, th);
    var v := DashboardView(rs);
    var shown := WebState.UpdateTemperature(web, v.temperature, v.status, stamp).(config := config);
    WebState.AddLogsKeepsNewest(shown, WebLogEntries(rs, th, stamp, render));
  }

  /** The alert a cycle sends is the scan's hottest sensor, its maximum and
      the threshold: the maximum is above the threshold and no
      over-threshold reading exceeds it, and for a threshold of at least 0
      (the only kind validation accepts) the sensor is the first
      over-threshold one at that maximum. */
  lemma CycleAlertNamesHottest(rs: seq<Reading>, config: Config, web: WebState.AppState,
                               m: Notifications.NotificationManager, managerFree: bool, traySender: bool,
                               now: nat, stamp: string, render: Reading -> string)
    requires managerFree ==> Notifications.CanDecide(m, ScanAll(rs, config.temperatureThresholdC).any, now)
    ensures var r := MonitorCycle(Ok(rs), config, web, m, managerFree, traySender, now, stamp, render);
      var th := config.temperatureThresholdC;
      && r.alert == (if r.alert.Some? then Some(Alert(ScanAll(rs, th).hottest, ScanAll(rs, th).maxTemp, th)) else None)
      && (r.alert.Some? ==>
            && r.alert.value.threshold == th
            && r.alert.value.temperature > th
            && (forall i :: 0 <= i < |rs| && rs[i].temperature > th ==> rs[i].temperature <= r.alert.value.temperature)
            && (th >= 0.0 ==>
                  exists i :: HottestAt(rs, th, ScanAll(rs, th), i)
                              && rs[i].sensorName == r.alert.value.sensor
                              && rs[i].temperature == r.alert.value.temperature))
  {
  }

  /** `handle_temperature_monitoring`: after a cycle the loop sleeps for the
      interval it returned, or for the configured one after an error; a
      paused loop would sleep one second, but the flag is never set. */
  function SleepAfter(paused: bool, result: Result<nat, string>, config: Config): (secs: nat)
    ensures paused ==> secs == 1
    ensures !paused && result.Err? ==> secs == config.pollIntervalSec
    ensures !paused && result.Ok? ==> secs == result.value
  {
    if paused then 1
    else match result
      case Ok(interval) => interval
      case Err(_) => config.pollIntervalSec
  }

  /** Whatever a cycle does, the loop sleeps for the configured interval. */
  lemma SleepIsPollInterval(sensors: Result<seq<Reading>, string>, config: Config, web: WebState.AppState,
                            m: Notifications.NotificationManager, managerFree: bool, traySender: bool,
                            now: nat, stamp: string, render: Reading -> string)
    requires managerFree && sensors.Ok? ==>
      Notifications.CanDecide(m, ScanAll(sensors.value, config.temperatureThresholdC).any, now)
    ensures SleepAfter(false, MonitorCycle(sensors, config, web, m, managerFree, traySender, now, stamp, render).result, config)
         == config.pollIntervalSec
  {
  }

  // ---------------------------------------------------------------------
  // Start-up.

  datatype CliCommand =
    | RunMonitor | Install | Uninstall | Status | StartupTest | Help | UnknownArgument(arg: string)

  /** The dispatch on `args[1]`; without arguments the monitor runs.  Every
      command other than running the monitor returns right away, and an
      unknown argument prints the help too. */
  function Dispatch(args: seq<string>): (c: CliCommand)
    ensures |args| <= 1 <==> c == RunMonitor
    ensures c.UnknownArgument? ==> c.arg == args[1]
  {
    if |args| <= 1 then RunMonitor
    else if args[1] == "--install" then Install
    else if args[1] == "--uninstall" then Uninstall
    else if args[1] == "--status" then Status
    else if args[1] == "--startup-test" then StartupTest
    else if args[1] == "--help" then Help
    else UnknownArgument(args[1])
  }

  /** The flag that selects a command. */
  function FlagOf(c: CliCommand): Option<string>
  {
    match c
    case Install => Some("--install")
    case Uninstall => Some("--uninstall")
    case Status => Some("--status")
    case StartupTest => Some("--startup-test")
    case Help => Some("--help")
    case _ => None
  }

  /** Each flag selects its command whatever follows it, and only the
      second argument matters. */
  lemma DispatchRoundTrip(c: CliCommand, exe: string, rest: seq<string>, args: seq<string>)
    ensures FlagOf(c).Some? ==> Dispatch([exe, FlagOf(c).value] + rest) == c
    ensures |args| > 2 ==> Dispatch(args) == Dispatch(args[..2])
    ensures Dispatch(args).UnknownArgument? ==> FlagOf(Dispatch(args)).None?
  {
  }

  /** `is_autostart`: the session variable is set and there are no
      arguments besides the program. */
  function IsAutostart(sessionName: Option<string>, args: seq<string>): (b: bool)
    ensures b ==> Dispatch(args) == RunMonitor
    ensures b <==> sessionName.Some? && |args| == 1
  {
    sessionName.Some? && |args| == 1
  }

  /** What `AutoStart::get_detailed_status` reports and `main` uses. */
  datatype AutostartStatus = AutostartStatus(isInstalled: bool, pathsMatch: bool)

  datatype RepairAction = InstallEntry | ReinstallEntry | KeepEntry | ManagerUnavailable

  /** Start-up autostart handling: install when absent, install again when
      the recorded path does not match, otherwise nothing; a manager that
      cannot be created is only logged. */
  function StartupAutostart(manager: Result<AutostartStatus, string>): (a: RepairAction)
    ensures manager.Err? <==> a == ManagerUnavailable
    ensures manager.Ok? && !manager.value.isInstalled <==> a == InstallEntry
    ensures manager.Ok? && manager.value.isInstalled && !manager.value.pathsMatch <==> a == ReinstallEntry
  {
    match manager
    case Err(_) => ManagerUnavailable
    case Ok(s) =>
      if !s.isInstalled then InstallEntry
      else if !s.pathsMatch then ReinstallEntry
      else KeepEntry
  }

  /** The command the registry entry holds for an executable path. */
  function Quoted(exe: string): string
  {
    "\"" + exe + "\""
  }

  /** `AutoStart::new`: the manager remembers the executable's path. */
  function NewManager(currentExe: Option<string>): Result<string, string>
  {
    match currentExe
    case Some(p) => Ok(p)
    case None => Err("current executable unavailable")
  }

  /** `get_detailed_status` as written (src/autostart.rs:233-254): installed
      means the entry exists, whatever it holds, and the paths are compared
      between the executable now (empty when unavailable) and the path the
      manager remembered, never the entry. */
  function DetailedStatusAsWritten(appPath: string, currentExe: Option<string>, entry: Option<string>): AutostartStatus
  {
    var exe := if currentExe.Some? then currentExe.value else "";
    AutostartStatus(entry.Some?, entry.Some? && exe == appPath)
  }

  function StartupRepairAsWritten(exe: string, entry: Option<string>): RepairAction
  {
    match NewManager(Some(exe))
    case Err(e) => StartupAutostart(Err(e))
    case Ok(app) => StartupAutostart(Ok(DetailedStatusAsWritten(app, Some(exe), entry)))
  }

  /** As written, an entry pointing at another executable (left by an older
      copy of the program) is never repaired. */
  lemma StaleEntryKeptAsWritten(exe: string, stale: string)
    requires stale != Quoted(exe)
    ensures StartupRepairAsWritten(exe, Some(stale)) == KeepEntry
  {
  }

  /** The status with the entry's contents compared to this executable. */
  function DetailedStatus(exe: string, entry: Option<string>): AutostartStatus
  {
    AutostartStatus(entry.Some?, entry == Some(Quoted(exe)))
  }

  function StartupRepair(exe: string, entry: Option<string>): RepairAction
  {
    StartupAutostart(Ok(DetailedStatus(exe, entry)))
  }

  /** `install` writes the quoted executable path under the value name. */
  function AfterRepair(exe: string, a: RepairAction, entry: Option<string>): Option<string>
  {
    if a == InstallEntry || a == ReinstallEntry then Some(Quoted(exe)) else entry
  }

  /** Compared with the entry, a stale entry is rewritten, and after one
      start-up the next one finds nothing to do. */
  lemma StartupRepairConverges(exe: string, entry: Option<string>)
    ensures entry.Some? && entry != Some(Quoted(exe)) ==> StartupRepair(exe, entry) == ReinstallEntry
    ensures entry.None? ==> StartupRepair(exe, entry) == InstallEntry
    ensures StartupRepair(exe, AfterRepair(exe, StartupRepair(exe, entry), entry)) == KeepEntry
  {
  }

  datatype NvmlStart = Monitoring(retried: bool) | ExitWith(reason: string)

  /** The NVML check at start-up: a failure ends the program, except that
      an autostarted program waits and tries once more. */
  function NvmlStartup(autostart: bool, first: Outcome, retry: Outcome): (r: NvmlStart)
    ensures r.Monitoring? <==> first.Done? || (autostart && retry.Done?)
    ensures r == Monitoring(true) <==> first.Failed? && autostart && retry.Done?
    ensures r.ExitWith? ==> r.reason == (if autostart then retry.reason else first.reason)
  {
    if first.Done? then Monitoring(false)
    else if !autostart then ExitWith(first.reason)
    else if retry.Done? then Monitoring(true)
    else ExitWith(retry.reason)
  }

  /** `Config::load_or_create()?` followed by `validate()?`. */
  function StartupConfig(store: Store, save: Outcome): (r: Result<Config, string>)
    ensures r.Ok? ==> Valid(r.value)
    ensures r.Ok? <==> LoadOrCreate(store, save).result.Ok? && Valid(LoadOrCreate(store, save).result.value)
  {
    var l := LoadOrCreate(store, save);
    match l.result
    case Err(e) => Err(e)
    case Ok(c) =>
      match Validate(c)
      case Err(v) => Err(ValidationMessage(v))
      case Ok(_) => Ok(c)
  }

  /** A first start on a machine without a configuration file runs with the
      defaults once they are saved. */
  lemma FirstStartUsesDefaults()
    ensures StartupConfig(Absent, Done) == Ok(Default())
  {
  }
}
