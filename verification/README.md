# GPU temperature watcher — a Dafny model of its core

GpuTempWatch is a Windows tray application. It polls the NVIDIA GPU sensors and
warns the user when a reading goes over a configured threshold. Repeat alerts
are rate-limited by an exponential back-off. It also serves a small web
dashboard, keeps a structured log with size-based rotation, shows a
temperature-coloured tray icon, and installs itself in the registry's `Run` key.

This project models the decisions in that program as pure Dafny functions over
immutable datatypes:

- `Notifications`: the alert back-off of `NotificationManager`.
- `AppConfig`: the configuration record, its defaults, its validation, the
  setters and `load_or_create`.
- `WebState`: the dashboard state, its 100-entry log ring, and the status,
  config and action handlers.
- `Tray`: the tray bridge. It covers the menu mapping, the icon-state
  classification, the caller/thread protocol over the command channel, icon
  loading with its fallbacks, start-up and `Drop`.
- `AppPaths`: where files live.
- `Logger`: the structured logger. It covers level filtering, console/file
  routing, the write-then-rotate policy, one-time initialisation and log
  rotation.
- `Ico`: the two Python ICO generators, as a little-endian packed-record model.
- `Monitor`: the monitoring cycle, the sleep between cycles, command-line
  dispatch, autostart detection and repair, the NVML retry, and start-up
  configuration.

Every effect is an explicit parameter. This covers the file system, the registry, NVML, channels, locks and the clock:

- An external call is an `Outcome` (`Done` or `Failed(reason)`).
- A lock is a `bool` saying whether it could be taken.
- The clock is a `nat` in seconds.

`f32` temperatures are `real`; `u64`/`u32` counters are `nat`. The machine
width changes the behaviour in two places:
- The back-off multiplication, which is modelled separately in
  `Notifications.CooldownDurationU64`.
- The subtraction `current_time - last_time` in `should_notify`
  (src/notifications.rs:63), which would panic or wrap when the clock runs
  behind the recorded alert. The model excludes that case through
  `Notifications.CanDecide`.

Behaviour that is easy to misread, as the code has it:

- The first re-alert of an excursion waits `base * 2^1 = 40` s, not 20 s.
  `send_temperature_alert` raises the level before the next `should_notify`
  reads it.
- The dashboard shows the maximum of all readings. The older
  `monitor_temperatures`, which nothing calls any more, showed the
  over-threshold maximum (`Monitor.ViewsDivergeWhenNormal`).
- The configuration is read from and written to `./config.json`, relative to
  the working directory, rather than at the AppData path that `app_paths.rs`
  computes (`AppPaths.ConfigLocationsDiffer`).
- The cycle's tray payload goes to a consumer that only logs it. The model
  keeps the payload (`Monitor.MonitorCycle`'s `trayUpdate`) and models
  `update_icon_for_temperature` on its own.
- `monitoring_paused` is a constant `false`, so the loop never takes its
  one-second branch.

## Model

| member | source | states |
|---|---|---|
| Notifications.New | src/notifications.rs:18-26 | a fresh manager has base 20 s and cap 320 s, no alert recorded, level 0, and a first cooldown of 20 s |
| Notifications.CooldownDuration | src/notifications.rs:73-76 | the cooldown never exceeds the cap or `base * 2^level`, and equals one of the two |
| Notifications.CooldownMonotone | src/notifications.rs:73-76 | raising the level never shortens the cooldown |
| Notifications.CooldownReachesCap | src/notifications.rs:18-26 | with the constants of `new`, from level 4 on the cooldown is the 320 s cap |
| Notifications.ShouldNotify | src/notifications.rs:47-71 | a normal reading resets to quiet without firing; a high reading fires when nothing is recorded or the cooldown has elapsed, and then records the time; a suppressed high reading changes nothing |
| Notifications.SendTemperatureAlert | src/notifications.rs:78-132 | one delivery attempt; the message box is used exactly when the toast fails; the level rises by one whatever happens; the result is always `Ok` |
| Notifications.NotifyStep | src/main.rs:258-267 | the cycle fires exactly when `should_notify` does, and a fired alert records the time and raises the level |
| Notifications.NotifyStepKeepsConsistent | src/notifications.rs:47-71 | "no alert recorded" and "level 0" stay together across cycle steps |
| Notifications.FreshExcursionFiresAtOnce | src/notifications.rs:53-70 | after a normal reading, the next high reading alerts at once and leaves level 1 |
| Notifications.NotifyStepKeepsChronological | src/notifications.rs:60-65 | with a clock that never runs backwards, the first step can be decided and the rest of the run keeps that property |
| Notifications.ChronologicalIsDecidable | src/notifications.rs:60-65 | with a clock that never runs backwards, every step of the run can be decided |
| Notifications.BackwardClockOnNormalReadings | src/notifications.rs:53-65 | a clock that runs backwards while readings are normal still gives a decidable run, since a normal reading clears the recorded time before the next subtraction |
| Notifications.Run | src/main.rs:117-147 | a run over `n` observations records `n` fire/no-fire decisions; it is defined whenever no step subtracts a later recorded time from an earlier clock |
| Notifications.LevelCountsAlerts | src/notifications.rs:47-132 | within one excursion, the level grows by exactly the number of alerts sent |
| Notifications.RunEndingNormalIsQuiet | src/notifications.rs:53-58 | a run that ends on a normal reading leaves the back-off reset |
| Notifications.NextAlertWaitsAtLeastTwiceBase | src/notifications.rs:60-65 | once an alert has gone out in an excursion, the next one comes at least `min(2*base, cap)` seconds after it |
| Notifications.EscalationScenario | src/notifications.rs:47-132 | high readings at 0, 10 and 25 s, a normal one at 30 s and a high one at 31 s alert at 0 and 31 s only, ending at level 1 |
| Notifications.CooldownU64CollapsesAtLevel62 | src/notifications.rs:73-76 | as written in 64-bit arithmetic, from level 62 the cooldown is 0, while the intended value is the cap |
| AppConfig.Default | src/config.rs:14-24 | the defaults are 60 °C, 20 s, 20 s, logging on, `./Logs/GpuTempWatch.log`, and they pass validation |
| AppConfig.Validate | src/config.rs:75-88 | accepts exactly the configurations within all three inclusive bounds; otherwise it reports the first violated bound, in the order threshold, poll interval, cooldown |
| AppConfig.UpdateThreshold | src/config.rs:61-66 | assigns the threshold and returns the save error, keeping the assignment even when the save fails |
| AppConfig.UpdatePollInterval | src/config.rs:68-73 | assigns the interval and returns the save error, keeping the assignment even when the save fails |
| AppConfig.SettersBypassValidation | src/config.rs:61-73 | the setters accept values that `validate` rejects |
| AppConfig.SettersCommute | src/config.rs:61-73 | the two setters touch different fields, so their order does not matter |
| AppConfig.LoadOrCreate | src/config.rs:27-41 | an existing file is returned as read (error included); a missing one becomes the saved defaults, or the save error with nothing written |
| AppConfig.LoadOrCreateIdempotent | src/config.rs:27-41 | after a successful load-or-create, loading again gives the same configuration and leaves the store unchanged |
| WebState.NewAppState | src/web_server.rs:83-98 | a snapshot of the shared configuration; autostart shown as on exactly when the registry says installed; no reading, status "Unknown", empty ring |
| WebState.AddLog | src/web_server.rs:100-113 | appends the entry and drops the oldest when the ring would exceed 100, changing nothing else |
| WebState.AddLogsKeepsNewest | src/web_server.rs:100-113 | starting within bounds, any sequence of appends leaves exactly the newest 100 of all entries, in order |
| WebState.UpdateTemperature | src/web_server.rs:115-119 | sets the reading, the status and the time, and nothing else |
| WebState.GetStatus | src/web_server.rs:187-199 | reports the state's fields, with the threshold taken from its configuration |
| WebState.StatusReflectsUpdate | src/web_server.rs:115-119 | a status read after an update reports exactly that update |
| WebState.WebConfigRoundTrip | src/web_server.rs:25-45 | the two conversions between `Config` and `WebConfig` are inverse both ways |
| WebState.GetConfig | src/web_server.rs:206-221 | returns the dashboard's configuration, or the defaults when its lock is poisoned |
| WebState.UpdateConfig | src/web_server.rs:223-299 | rejects before writing on a poisoned lock or an invalid body; succeeds exactly when valid, both cells writable and saved; rolls the shared cell back when the save fails; writes nothing but the configuration |
| WebState.UpdateConfigKeepsCellsSynced | src/web_server.rs:223-299 | two agreeing configuration cells still agree after any update whose handle lock, if taken at the start, can be taken again for the rollback; they hold either the old or the new configuration |
| WebState.NegativeThresholdRejected | src/web_server.rs:247-257 | a threshold of -1 is refused with the validation message and nothing changes |
| WebState.HandleAction | src/web_server.rs:301-342 | "toggle_autostart" flips the registry entry and reports it; an unknown action or an unavailable registry changes nothing |
| WebState.ToggleTwiceRestores | src/web_server.rs:301-330 | two successful toggles leave the registry as it was |
| Tray.MenuIdToMessage | src/tray.rs:33-47 | defined exactly on the ten known ids; "settings" is the only id that opens the web interface; `Settings` is never produced |
| Tray.MenuMappingRoundTrip | src/tray.rs:33-47 | the mapping is a bijection between the ten ids and every message but `Settings` |
| Tray.MenuItemsAreMapped | src/tray.rs:337-352 | every menu item's id is known to the mapping and every known id has an item |
| Tray.OnIconEvent | src/tray.rs:277-293 | only a double click sends a message, and that message opens the web interface |
| Tray.SettingsNeverSent | src/tray.rs:259-293 | neither event handler ever sends `Settings` |
| Tray.Classify | src/tray.rs:138-144 | Hot strictly above the threshold, Warm in the ten degrees at or below it, Cool otherwise |
| Tray.ClassifyMonotone | src/tray.rs:138-144 | a hotter reading or a lower threshold never gives a cooler icon |
| Tray.UpdateIconForTemperature | src/tray.rs:133-167 | sends exactly on a change of state with a working channel; adopts the new state only after a successful send; a failed send keeps the old state and returns the error |
| Tray.CallerNeverRepeats | src/tray.rs:146-164 | over any calls, the caller never sends the same state twice in a row nor the state it started in, and it ends in the last state sent |
| Tray.ThreadStep | src/tray.rs:406-420 | the thread's icon changes only on an update to a different state whose load and set both succeed |
| Tray.RunLoop | src/tray.rs:404-434 | the loop stops exactly when a shutdown or a disconnect arrives |
| Tray.RunLoopIsLastSuccess | src/tray.rs:404-434 | the loop ends in the state of the last fully successful update it read before stopping |
| Tray.BridgeAgrees | src/tray.rs:133-167 | when every command the caller sent is delivered and applied, the thread ends in the caller's state |
| Tray.FailedLoadIsNotRetried | src/tray.rs:406-420 | after one failed icon load, the caller still believes the new state and never resends it, so the thread keeps the old icon |
| Tray.LoadIconForState | src/tray.rs:169-208 | the state's own file when it loads, else `icons/icon.ico` when that loads, else the programmatic image; an error only when all three fail |
| Tray.IconFilesDistinct | src/tray.rs:169-174 | each state has its own icon file, and none of them is the generic one |
| Tray.ProgrammaticMatchesIcoFiles | src/tray.rs:210-238 | the RGBA buffer holds, offset for offset, the pixel the script writes to the ICO file at the same position, with red and blue swapped back |
| Tray.NewTray | src/tray.rs:81-117 | start-up succeeds exactly when spawn, menu, icon and build all succeed; an initialisation error is passed on; a dead thread gives the closed-channel error |
| Tray.Loaded | src/tray.rs:409-425 | the thread's load succeeds exactly when `load_icon_for_state` gives an icon, and fails with its message |
| Tray.LoadedIconFeedsThread | src/tray.rs:404-425 | with the icon loaded by `load_icon_for_state`, an update is adopted exactly when the state changes, some icon source is available and `set_icon` succeeds |
| Tray.StartedTrayAgrees | src/tray.rs:370-400 | start-up with the loaded Cool icon succeeds exactly when some source is available, and then caller and thread start alike, so delivered commands leave them agreeing |
| Tray.Drop | src/tray.rs:241-255 | sends shutdown first and clears the handlers last, joins exactly when a handle is held, and counts one warning per failure |
| Tray.DropStepsIgnoreFailures | src/tray.rs:241-255 | the steps taken on drop do not depend on which of them fail |
| Tray.ShutdownStopsLoop | src/tray.rs:421-424 | once the shutdown signal is read, nothing after it affects the thread |
| AppPaths.Parent | src/app_paths.rs:101-104 | none for the empty path; otherwise the path the last component was joined to |
| AppPaths.AppDataDir | src/app_paths.rs:12-24 | `LOCALAPPDATA/GpuTempWatch`, with a missing variable or a failed creation as the error |
| AppPaths.LogsDir | src/app_paths.rs:40-50 | `Logs` inside the application directory, failing with the first error met |
| AppPaths.FallbackConfigPath | src/app_paths.rs:60-64 | `config.json` in the working directory, or in `.` when that is unavailable |
| AppPaths.FallbackLogPath | src/app_paths.rs:66-71 | `Logs/gpu-temp-watch.log` under the working directory, or under `.` |
| AppPaths.GettersShareFailure | src/app_paths.rs:27-56 | every getter fails exactly when the application directory (and, below it, the logs directory) does, with that error |
| AppPaths.PathsConsistent | src/app_paths.rs:95-106 | the config file, the log file and the logs directory sit in the application directory, and the rotated log file in the logs directory |
| AppPaths.LogFileOrFallback | src/logger_service.rs:176-179 | the log file the program opens is always `.../Logs/gpu-temp-watch.log` |
| AppPaths.ConfigLocationsDiffer | src/config.rs:57-59 | the path `Config` uses and the path the path module names are built differently, as segment sequences |
| Logger.LevelOrderTotal | src/logger_service.rs:13-20 | levels are strictly and totally ordered from Trace to Error |
| Logger.ParseLevel | src/logger_service.rs:22-31 | a parsed name is the upper-case name of its level |
| Logger.AsStrRoundTrip | src/logger_service.rs:22-31 | every level's name parses back to that level |
| Logger.DefaultLoggerConfig | src/logger_service.rs:169-186 | Info and up, to console and file, human and JSON formats, 10 MiB and 5 files, in the AppData log file or its fallback |
| Logger.ConsoleStream | src/logger_service.rs:226-237 | errors go to standard error, everything else to standard output |
| Logger.WriteToFile | src/logger_service.rs:249-273 | rotation is attempted exactly when a limit is set and an existing file's size reaches it; a failed size check or rotation aborts the write |
| Logger.LogToFile | src/logger_service.rs:240-246 | nothing without a file path; otherwise one file outcome, with a failure reported rather than raised |
| Logger.Log | src/logger_service.rs:208-222 | a filtered entry produces nothing; otherwise it goes to the console, the file or both, in that order |
| Logger.FilterUpwardClosed | src/logger_service.rs:208-211 | when an entry of one level is written, an entry of any level at least as high is written the same way |
| Logger.ConsoleRouting | src/logger_service.rs:226-237 | console output comes first and goes to standard error exactly for errors |
| Logger.InitLogger | src/logger_service.rs:340-349 | succeeds exactly on the first call whose directory creation succeeds; later calls fail and keep the first configuration |
| Logger.InitOnce | src/logger_service.rs:340-349 | after one successful initialisation, no later attempt changes the logger |
| Logger.LogTemperature | src/logger_service.rs:419-431 | a reading strictly above the threshold is a warning marked HOT, otherwise information marked OK |
| Logger.TemperatureEntriesAlwaysWritten | src/logger_service.rs:169-186 | with the start-up configuration, every temperature entry goes to standard output and then to the file |
| Logger.RotationAsWrittenSkipsFirst | src/logger_service.rs:282-306 | as written, the live file lands in slot 2 while the old slot 1 stays put |
| Logger.RotationAsWrittenDropsLiveFile | src/logger_service.rs:282-306 | as written, with two files the live log is deleted instead of rotated |
| Logger.RotationShiftsByOne | src/logger_service.rs:276-311 | the corrected rotation moves every file up one slot, drops the oldest and leaves no live file |
| Logger.FilesAfterWrite | src/logger_service.rs:249-273 | a successful write leaves the line at the end of the live file, which is created when absent; without a rotation the numbered files are untouched, and a write that fails before rotating changes nothing; a due rotation runs `rotate_logs` as written or corrected, as chosen |
| Logger.RotationThenFreshFile | src/logger_service.rs:249-311 | with the corrected rotation, a write due for rotation clears the live path before its own append, so after it the live file holds only the new line and the old live file is number 1 |
| Logger.ShiftDownAsWrittenMovesLiveToSecond | src/logger_service.rs:282-306 | the shifting loop as written leaves numbers 0 and 1 alone until its last turn, which moves the live file to number 2 |
| Logger.RotationAsWrittenThenFreshFile | src/logger_service.rs:249-311 | with the rotation as written, the due write still leaves only the new line in the live file, but the old live file goes to number 2 with number 1 unchanged (three or more files), or is lost (two files) |
| Ico.U16LE | create_temperature_icons.py:10 | a 16-bit field packs into two bytes |
| Ico.U32LE | create_temperature_icons.py:22 | a 32-bit field packs into four bytes |
| Ico.U16RoundTrip | create_temperature_icons.py:10 | reading a packed 16-bit little-endian field gives the value back |
| Ico.U32RoundTrip | create_temperature_icons.py:22 | reading a packed 32-bit little-endian field gives the value back |
| Ico.PackAppend | create_temperature_icons.py:62 | packing a concatenation of records is the concatenation of their packings |
| Ico.PackReadBack | create_temperature_icons.py:10-37 | every field of a packed record reads back at its offset |
| Ico.HeaderIsPackedLayout | create_temperature_icons.py:10-37 | the three headers are the packing of the ICONDIR, ICONDIRENTRY and BITMAPINFOHEADER field lists |
| Ico.PixelBlock | create_temperature_icons.py:40-59 | 256 four-byte pixels |
| Ico.EncodePixels | create_temperature_icons.py:40-59 | the nested loops write, for every pixel, the colour the first matching rule gives |
| Ico.LayoutIsSelfConsistent | create_temperature_icons.py:16-22 | the declared image offset is where the bitmap header starts, and the declared size is what follows it |
| Ico.IcoFilePacked | create_temperature_icons.py:62 | the generated file is 1086 bytes and holds every header field at its offset |
| Ico.CreateColoredIco | create_temperature_icons.py:7-66 | the file is the packed headers and then the thermometer in the given colour |
| Ico.CreateSimpleIco | create_icon.py:7-64 | the generic icon has a red thermometer with a black outline on a transparent background |
| Ico.SimpleIconIsHotIcon | create_icon.py:45-59 | the generic icon is byte for byte the hot-state icon |
| Monitor.ScanSpec | src/main.rs:180-203 | the flag is set exactly when some reading is above the threshold; the maximum bounds the over-threshold readings; the hottest sensor is the first to reach it |
| Monitor.Summarize | src/main.rs:180-203 | the loop computes the flag and an upper bound of the over-threshold readings |
| Monitor.AllMaxSpec | src/main.rs:213-215 | the fold is the maximum of 0 and every reading |
| Monitor.DashboardView | src/main.rs:209-222 | a reading is shown exactly when the status is "Connected", and it is the positive maximum of all readings |
| Monitor.ViewsAgreeWhenOverThreshold | src/main.rs:757-770 | with a reading over the threshold, the older view and the current one agree |
| Monitor.ViewsDivergeWhenNormal | src/main.rs:757-770 | with every reading at or below the threshold, the current view is connected while the older one reported a read error |
| Monitor.WebLogEntries | src/main.rs:228-237 | one dashboard entry per reading, in order: WARN strictly above the threshold, INFO otherwise |
| Monitor.TemperatureLogs | src/main.rs:198 | one logger entry per reading, in order |
| Monitor.LogLevelsAgree | src/main.rs:198-237 | the dashboard entry and the logger entry of a reading have the same level |
| Monitor.AlertFor | src/main.rs:178-193 | the alert carries the threshold and the maximum of the over-threshold readings, which is above the threshold; a positive maximum names the first over-threshold sensor at it, and all-nonpositive over-threshold readings give "" and 0 |
| Monitor.MonitorCycle | src/main.rs:163-271 | a sensor error is passed on untouched; no readings return the interval and touch nothing; a busy manager lock sends no alert |
| Monitor.CycleEffects | src/main.rs:163-271 | the dashboard shows the maximum and the current configuration, and keeps its newest entries; the tray gets the maximum; an alert is sent exactly when the lock was free and `should_notify` agreed, and only for a hot reading |
| Monitor.CycleAlertNamesHottest | src/main.rs:258-266 | the alert sent is `(hottest_sensor, max_temp, threshold)` of the scan: its temperature is above the threshold and no over-threshold reading exceeds it; with a threshold of at least 0 it names the first over-threshold sensor at that maximum |
| Monitor.SleepAfter | src/main.rs:117-146 | a pause sleeps one second; a cycle's interval is slept as returned; an error sleeps the configured interval |
| Monitor.SleepIsPollInterval | src/main.rs:117-146 | after any cycle the loop sleeps the configured poll interval |
| Monitor.Dispatch | src/main.rs:317-438 | the monitor runs exactly when no argument is given; an unknown argument is reported as given |
| Monitor.DispatchRoundTrip | src/main.rs:317-438 | each flag selects its command whatever follows, and only the second argument matters |
| Monitor.IsAutostart | src/main.rs:302 | autostart means the session variable is set and there are no arguments, which always runs the monitor |
| Monitor.StartupAutostart | src/main.rs:445-510 | install when absent, install again on a path mismatch, only log when the manager cannot be created |
| Monitor.StaleEntryKeptAsWritten | src/autostart.rs:233-254 | as written, a registry entry naming another executable is never repaired |
| Monitor.StartupRepairConverges | src/autostart.rs:93 | comparing the entry's contents rewrites a stale entry, and the next start-up finds nothing to do |
| Monitor.NvmlStartup | src/main.rs:540-598 | monitoring starts exactly when the first NVML check succeeds or an autostart's single retry does; the retry happens only for an autostart; an exit carries the error of the last check made |
| Monitor.StartupConfig | src/main.rs:513-514 | the program starts only with a configuration that passes validation, and with every such loaded configuration |
| Monitor.FirstStartUsesDefaults | src/config.rs:35-40 | with no configuration file and a working save, the program starts with the defaults |

## Left out

- Concurrency: the tokio tasks, the tray thread, `RwLock`/`Mutex` and channels become explicit parameters (lock free or poisoned, send outcome), and one cycle is a function.
- Wall-clock time, `chrono` formatting and the `{:.1}` number formatting: time stamps and rendered messages are parameters (`stamp`, `render`).
- NVML, the sensors (`src/monitor.rs`), the registry calls, file I/O, the Windows message pump, toast and message-box calls: each is an `Outcome` or a value passed in.
- Floating point: `f32` is `real`. `NaN` readings and rounding are not modelled.
- Notifications.CanDecide: the model asks that the clock not run behind the recorded alert, since `current_time - last_time` on `u64` would panic or wrap there.
- Notifications.CooldownDuration: the level is a `nat`. The `u32` level and the `u64` product are modelled only in `CooldownDurationU64`.
- `send_status_notification`, the start-up "started" notification and its `?` (src/main.rs:601-605): not modelled.
- `send_status_notification_sync` (src/main.rs:527, 587, 594, 607): notifications.rs does not define it, so these calls do not compile as written; the NVML and start-up status messages are not modelled.
- `SystemTray::get_message`, the tray menu labels and emoji, and `handle_tray_events` (src/main.rs:40-103): the model stops at the message sent. The dispatcher uses message variants that tray.rs does not define.
- `GuiManager` and the debug-only dialogs are display only.
- The web routes, request logging, `get_logs`, `health_check`, `open_browser` and the embedded page: not modelled.
- `LogEntry` formatting (human, JSON, structured), colour codes, emoji and correlation ids: not modelled.
- WebState.UpdateConfigKeepsCellsSynced: it requires that a handle lock taken at src/web_server.rs:259 can be taken again for the rollback at :279. That always holds in the source. `update_config` is the only writer of `config_handle`, and it holds the state write lock from :230 to the end, so nothing can poison the handle lock in between.
- Logger.RotateLogs: the rename and remove calls are assumed to succeed; their errors would abort the write.
- Logger.FilesAfterWrite: a failed rotation is modelled as leaving the files unchanged. In the source, a rename or remove that fails part-way leaves the files the loop had already moved.
- Notifications.Run: it requires `Decidable`, which holds exactly when no step subtracts a recorded alert time from an earlier clock. That subtraction is on `u64` and would panic or wrap in the source. Every other run, including a clock that goes backwards while readings are normal, is modelled.
- Monitor.MonitorCycle: it requires `CanDecide` only when the lock is free and the readings arrived, and then only for the cycle's own over-threshold flag. That excludes only the `u64` subtraction case of `should_notify`.
- Monitor.CycleEffects: same requirement as `MonitorCycle`, for the readings given.
- Monitor.SleepIsPollInterval: same requirement as `MonitorCycle`.
- Tray.ProgrammaticMatchesIcoFiles: it compares byte buffers position by position. The ICO scripts write rows top-first under a positive `biHeight`, which means bottom-up, so the `.ico` files display vertically mirrored relative to the top-down RGBA image. The display orientation is not modelled.
- Monitor.MonitorCycle: the "No GPU detected" branch inside the cycle cannot be reached after the early return on no readings, and is not modelled.
- The `--install`, `--uninstall`, `--status` and `--startup-test` bodies only print or log registry and NVML diagnostics, so `Dispatch` stops at the chosen command.
- Monitor.Summarize: its contract gives the flag and the bound; the hottest-sensor property is stated by `ScanSpec`.
- Ico.U16LE: only the length is in its contract; the value is stated by `U16RoundTrip`.
- Ico.U32LE: only the length is in its contract; the value is stated by `U32RoundTrip`.
- `tray_new.rs`, `logging.rs`, `universal_logger.rs`, `gui.rs` and `scripts/create_icons.py` are not part of this model.

## Findings

| source | as written | input that shows it | evidently intended | confidence | as-written member | corrected member |
|---|---|---|---|---|---|---|
| src/notifications.rs:73-76 | `base * 2_u64.pow(level)` overflows before `min(cap)` is applied | level 62 with base 20: the product wraps to 0, so the cooldown is 0 and every reading alerts (a debug build panics instead) | the back-off stays at the 320 s cap | not executed | Notifications.CooldownU64CollapsesAtLevel62 | Notifications.CooldownReachesCap |
| src/autostart.rs:233-254 | `paths_match` compares `current_exe()` with the `app_path` that `new` took from `current_exe()`, never with the registry value | a `Run` entry left by a copy in another folder: installed is true and the paths match, so start-up never rewrites it | compare the registry value with the quoted current executable | not executed | Monitor.StaleEntryKeptAsWritten | Monitor.StartupRepairConverges |
| src/logger_service.rs:282-306 | for `i == 1` the loop moves the live file instead of `base.1.ext` | files `{live, .1}` with 5 files: live goes to `.2` and `.1` stays; with 2 files the live log is deleted | every file moves up by one and the live file becomes `.1` | not executed | Logger.RotationAsWrittenThenFreshFile | Logger.RotationThenFreshFile |
