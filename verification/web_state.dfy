/** The state behind the web dashboard (src/web_server.rs): `AppState`, its
    bounded log ring, the `WebConfig` wire form of `Config`, and the state
    logic of the `get_status`, `get_config`, `update_config` and
    `handle_action` handlers.  Lock acquisitions are booleans (true: the lock
    was obtained, false: it was poisoned), saves and registry calls are
    `Outcome`s, and timestamps arrive already formatted. */
module WebState {
  import opened Common
  import opened AppConfig

  /** The ring keeps this many entries. */
  const MaxRecentLogs: nat := 100

  datatype LogEntry = LogEntry(timestamp: string, level: string, message: string)

  datatype AppState = AppState(
    config: Config,
    currentTemperature: Option<real>,
    monitoringPaused: bool,
    autostartEnabled: bool,
    uptimeSeconds: nat,
    recentLogs: seq<LogEntry>,
    lastUpdate: string,
    gpuConnectionStatus: string)

  /** The `RwLock<AppState>` together with the `Arc<RwLock<Config>>` shared
      with the monitoring loop (`config_handle`). */
  datatype Shared = Shared(handle: Config, app: AppState)

  /** The two configuration cells agree. */
  predicate Synced(s: Shared)
  {
    s.handle == s.app.config
  }

  predicate RingBounded(a: AppState)
  {
    |a.recentLogs| <= MaxRecentLogs
  }

  /** `AppState::new`: a snapshot of the shared configuration, autostart as
      the registry reports it (false when the registry cannot be opened), no
      reading yet, an empty ring and status "Unknown". */
  function NewAppState(handle: Config, installed: Result<bool, string>, now: string): (a: AppState)
    ensures a.config == handle
    ensures a.autostartEnabled <==> installed == Ok(true)
    ensures a.currentTemperature.None? && !a.monitoringPaused && a.uptimeSeconds == 0
    ensures a.recentLogs == [] && a.gpuConnectionStatus == "Unknown"
    ensures RingBounded(a)
  {
    AppState(handle, None, false, installed == Ok(true), 0, [], now, "Unknown")
  }

  /** `add_log`: append, then drop the first entry when the ring has grown
      past 100. */
  function AddLog(a: AppState, entry: LogEntry): (r: AppState)
    ensures r == a.(recentLogs := r.recentLogs)
    ensures |r.recentLogs| == (if |a.recentLogs| + 1 > MaxRecentLogs then |a.recentLogs| else |a.recentLogs| + 1)
    ensures RingBounded(a) ==> |r.recentLogs| == Min(|a.recentLogs| + 1, MaxRecentLogs)
    ensures r.recentLogs[|r.recentLogs| - 1] == entry
    ensures |a.recentLogs| < MaxRecentLogs ==> r.recentLogs == a.recentLogs + [entry]
    ensures |a.recentLogs| >= MaxRecentLogs ==> r.recentLogs == a.recentLogs[1..] + [entry]
  {
    var pushed := a.recentLogs + [entry];
    if |pushed| > MaxRecentLogs then a.(recentLogs := pushed[1..]) else a.(recentLogs := pushed)
  }

  /** `add_log` applied to each entry in order. */
  function AddLogs(a: AppState, entries: seq<LogEntry>): (r: AppState)
    ensures r == a.(recentLogs := r.recentLogs)
    decreases |entries|
  {
    if |entries| == 0 then a else AddLogs(AddLog(a, entries[0]), entries[1..])
  }

  /** The last `n` elements (all of them when there are fewer). */
  function LastN<T>(s: seq<T>, n: nat): (r: seq<T>)
  {
    if |s| <= n then s else s[|s| - n..]
  }

  /** Reference behaviour of the ring: starting within bounds, after any
      sequence of `add_log` calls it holds exactly the newest 100 of all
      entries ever added, oldest first. */
  lemma {:induction false} AddLogsKeepsNewest(a: AppState, entries: seq<LogEntry>)
    requires RingBounded(a)
    ensures AddLogs(a, entries).recentLogs == LastN(a.recentLogs + entries, MaxRecentLogs)
    ensures RingBounded(AddLogs(a, entries))
    decreases |entries|
  {
    if |entries| > 0 {
      var a' := AddLog(a, entries[0]);
      AddLogsKeepsNewest(a', entries[1..]);
      var whole := a.recentLogs + entries;
      assert a'.recentLogs + entries[1..] == LastN(a.recentLogs + [entries[0]], MaxRecentLogs) + entries[1..];
      if |a.recentLogs| + 1 > MaxRecentLogs {
        assert a.recentLogs + [entries[0]] + entries[1..] == whole;
        assert LastN(a'.recentLogs + entries[1..], MaxRecentLogs) == LastN(whole, MaxRecentLogs);
      } else {
        assert a'.recentLogs + entries[1..] == whole;
      }
    }
  }

  /** `update_temperature`: reading, time and status change; nothing else. */
  function UpdateTemperature(a: AppState, temperature: Option<real>, status: string, now: string): (r: AppState)
    ensures r.currentTemperature == temperature && r.gpuConnectionStatus == status && r.lastUpdate == now
    ensures r.config == a.config && r.recentLogs == a.recentLogs
    ensures r.monitoringPaused == a.monitoringPaused && r.autostartEnabled == a.autostartEnabled
    ensures r.uptimeSeconds == a.uptimeSeconds
  {
    a.(currentTemperature := temperature, lastUpdate := now, gpuConnectionStatus := status)
  }

  // ---------------------------------------------------------------------
  // Handlers.

  datatype StatusResponse = StatusResponse(
    temperature: Option<real>,
    threshold: real,
    monitoringPaused: bool,
    autostartEnabled: bool,
    uptimeSeconds: nat,
    lastUpdate: string,
    gpuConnectionStatus: string)

  /** `get_status`: a projection of the state; the threshold is the one in
      the dashboard's configuration snapshot. */
  function GetStatus(a: AppState): (r: StatusResponse)
    ensures r.temperature == a.currentTemperature && r.threshold == a.config.temperatureThresholdC
    ensures r.gpuConnectionStatus == a.gpuConnectionStatus && r.lastUpdate == a.lastUpdate
    ensures r.monitoringPaused == a.monitoringPaused && r.autostartEnabled == a.autostartEnabled
    ensures r.uptimeSeconds == a.uptimeSeconds
  {
    StatusResponse(a.currentTemperature, a.config.temperatureThresholdC, a.monitoringPaused,
                   a.autostartEnabled, a.uptimeSeconds, a.lastUpdate, a.gpuConnectionStatus)
  }

  /** A status read after a temperature update reports exactly that update;
      the reading and its status are never seen apart. */
  lemma StatusReflectsUpdate(a: AppState, t: Option<real>, status: string, now: string)
    ensures GetStatus(UpdateTemperature(a, t, status, now)).temperature == t
    ensures GetStatus(UpdateTemperature(a, t, status, now)).gpuConnectionStatus == status
    ensures GetStatus(UpdateTemperature(a, t, status, now)).threshold == a.config.temperatureThresholdC
  {
  }

  /** The configuration as the HTTP API carries it. */
  datatype WebConfig = WebConfig(
    temperatureThresholdC: real,
    pollIntervalSec: nat,
    baseCooldownSec: nat,
    enableLogging: bool,
    logFilePath: Option<string>)

  /** `From<Config> for WebConfig`. */
  function ToWebConfig(c: Config): WebConfig
  {
    WebConfig(c.temperatureThresholdC, c.pollIntervalSec, c.baseCooldownSec, c.enableLogging, c.logFilePath)
  }

  /** `Into<Config> for WebConfig`. */
  function FromWebConfig(w: WebConfig): Config
  {
    Config(w.temperatureThresholdC, w.pollIntervalSec, w.baseCooldownSec, w.enableLogging, w.logFilePath)
  }

  /** The two conversions are inverse to each other, both ways round. */
  lemma WebConfigRoundTrip(c: Config, w: WebConfig)
    ensures FromWebConfig(ToWebConfig(c)) == c
    ensures ToWebConfig(FromWebConfig(w)) == w
  {
  }

  /** `get_config`: the dashboard's configuration, or the defaults when the
      state lock is poisoned. */
  function GetConfig(a: AppState, stateLock: bool): (w: WebConfig)
    ensures stateLock ==> FromWebConfig(w) == a.config
    ensures !stateLock ==> FromWebConfig(w) == Default()
  {
    if stateLock then ToWebConfig(a.config) else ToWebConfig(Default())
  }

  /** The JSON body of a handler: `success: true` with a message, or
      `success: false` with an error. */
  datatype Response = Success(message: string) | Failure(error: string)

  /** `Display` of a poisoned `RwLock`'s error. */
  const PoisonMessage: string := "poisoned lock: another task failed inside"

  /** What `update_config` left behind: both cells, the reply, and what was
      written to the config file (if the write was attempted and succeeded). */
  datatype ConfigUpdate = ConfigUpdate(shared: Shared, response: Response, persisted: Option<Config>)

  /** `update_config`: convert, validate, write the shared cell, write the
      dashboard snapshot, save; on a failed save put the previous snapshot
      back into both cells (into the shared cell only if its lock can be
      taken again). */
  function UpdateConfig(s: Shared, w: WebConfig, stateLock: bool, handleLock: bool,
                        save: Outcome, rollbackLock: bool): (u: ConfigUpdate)
    // Rejected before anything is written.
    ensures !stateLock ==> u == ConfigUpdate(s, Failure("Internal server error: Failed to acquire state lock"), None)
    ensures stateLock && Validate(FromWebConfig(w)).Err? ==>
      u == ConfigUpdate(s, Failure("Configuration validation failed: "
                                   + ValidationMessage(Validate(FromWebConfig(w)).error)), None)
    ensures stateLock && Valid(FromWebConfig(w)) && !handleLock ==>
      u == ConfigUpdate(s, Failure("Failed to update shared configuration: " + PoisonMessage), None)
    // Committed.
    ensures u.response.Success? <==> stateLock && Valid(FromWebConfig(w)) && handleLock && save.Done?
    ensures u.response.Success? ==>
      && u.shared.handle == FromWebConfig(w) && u.shared.app.config == FromWebConfig(w)
      && u.persisted == Some(FromWebConfig(w))
      && u.response.message == "Configuration updated successfully"
    // Rolled back.
    ensures stateLock && Valid(FromWebConfig(w)) && handleLock && save.Failed? ==>
      && u.response == Failure("Failed to save config: " + save.reason)
      && u.shared.app.config == s.app.config
      && u.shared.handle == (if rollbackLock then s.app.config else FromWebConfig(w))
      && u.persisted.None?
    // Only the configuration cells are ever written.
    ensures u.shared.app == s.app.(config := u.shared.app.config)
  {
    if !stateLock then
      ConfigUpdate(s, Failure("Internal server error: Failed to acquire state lock"), None)
    else
      var updated := FromWebConfig(w);
      match Validate(updated)
      case Err(e) =>
        ConfigUpdate(s, Failure("Configuration validation failed: " + ValidationMessage(e)), None)
      case Ok(_) =>
        var previous := s.app.config;
        if !handleLock then
          ConfigUpdate(s, Failure("Failed to update shared configuration: " + PoisonMessage), None)
        else
          var committed := Shared(updated, s.app.(config := updated));
          if save.Failed? then
            var handle := if rollbackLock then previous else committed.handle;
            ConfigUpdate(Shared(handle, committed.app.(config := previous)),
                         Failure("Failed to save config: " + save.reason), None)
          else
            ConfigUpdate(committed, Success("Configuration updated successfully"), Some(updated))
  }

  /** Whatever the request and the outcomes, two agreeing cells still agree
      afterwards, unless a lock is poisoned between the failed save and the
      rollback; and they then hold either the old or the submitted
      configuration, never a mixture. */
  lemma UpdateConfigKeepsCellsSynced(s: Shared, w: WebConfig, stateLock: bool, handleLock: bool,
                                     save: Outcome, rollbackLock: bool)
    requires Synced(s)
    requires handleLock ==> rollbackLock
    ensures Synced(UpdateConfig(s, w, stateLock, handleLock, save, rollbackLock).shared)
    ensures UpdateConfig(s, w, stateLock, handleLock, save, rollbackLock).shared.handle in {s.handle, FromWebConfig(w)}
  {
  }

  /** A negative threshold is refused with the threshold message and
      nothing changes. */
  lemma NegativeThresholdRejected(s: Shared, w: WebConfig, handleLock: bool, save: Outcome, rollbackLock: bool)
    requires w.temperatureThresholdC == -1.0
    ensures UpdateConfig(s, w, true, handleLock, save, rollbackLock)
         == ConfigUpdate(s, Failure("Configuration validation failed: " + ValidationMessage(ThresholdOutOfRange)), None)
  {
    assert Validate(FromWebConfig(w)) == Err(ThresholdOutOfRange);
  }

  /** The registry as `AutoStart::new()` finds it: unavailable (with the
      error), or available and telling whether the entry is installed. */
  datatype Autostart = Unavailable(reason: string) | Available(installed: bool)

  /** The reply, and the registry state afterwards when it could be read. */
  datatype ActionResult = ActionResult(response: Response, installed: Option<bool>)

  /** `handle_action`: "toggle_autostart" uninstalls an installed entry and
      installs a missing one; every other action is unknown. */
  function HandleAction(action: string, registry: Autostart, op: Outcome): (r: ActionResult)
    ensures action != "toggle_autostart" ==> r.response == Failure("Unknown action")
    ensures action != "toggle_autostart" ==> r.installed == (if registry.Available? then Some(registry.installed) else None)
    ensures action == "toggle_autostart" && registry.Unavailable? ==>
      r == ActionResult(Failure("Failed to access autostart: " + registry.reason), None)
    ensures action == "toggle_autostart" && registry.Available? ==>
      && (r.response.Success? <==> op.Done?)
      && r.installed == Some(if op.Done? then !registry.installed else registry.installed)
    ensures r.response == Success("Autostart enabled") ==> r.installed == Some(true)
    ensures r.response == Success("Autostart disabled") ==> r.installed == Some(false)
  {
    var before := if registry.Available? then Some(registry.installed) else None;
    if action != "toggle_autostart" then ActionResult(Failure("Unknown action"), before)
    else match registry
      case Unavailable(reason) => ActionResult(Failure("Failed to access autostart: " + reason), None)
      case Available(installed) =>
        if installed then
          if op.Done? then ActionResult(Success("Autostart disabled"), Some(false))
          else ActionResult(Failure("Failed to disable autostart: " + op.reason), Some(true))
        else
          if op.Done? then ActionResult(Success("Autostart enabled"), Some(true))
          else ActionResult(Failure("Failed to enable autostart: " + op.reason), Some(false))
  }

  /** Two successful toggles bring the registry back to where it was. */
  lemma ToggleTwiceRestores(installed: bool)
    ensures HandleAction("toggle_autostart",
                         Available(HandleAction("toggle_autostart", Available(installed), Done).installed.value),
                         Done).installed == Some(installed)
  {
  }
}
