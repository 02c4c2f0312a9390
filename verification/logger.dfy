/** The logging policy (src/logger_service.rs): the order of levels, the
    enabled/minimum-level filter, where an entry goes, when the log file is
    rotated, the single global initialisation, and how a temperature reading
    is classified.  Rendering (human, JSON, structured text), timestamps and
    correlation ids are left out; an entry is its level. */
module Logger {
  import opened Common
  import AppPaths

  // ---------------------------------------------------------------------
  // Levels.

  datatype LogLevel = Trace | Debug | Info | Warn | Error

  /** The discriminants the derived `Ord` compares. */
  function Rank(l: LogLevel): nat
  {
    match l
    case Trace => 0
    case Debug => 1
    case Info => 2
    case Warn => 3
    case Error => 4
  }

  predicate Below(a: LogLevel, b: LogLevel)
  {
    Rank(a) < Rank(b)
  }

  /** Levels are totally ordered, Trace < Debug < Info < Warn < Error, and
      the order tells levels apart. */
  lemma LevelOrderTotal(a: LogLevel, b: LogLevel, c: LogLevel)
    ensures Below(Trace, Debug) && Below(Debug, Info) && Below(Info, Warn) && Below(Warn, Error)
    ensures !Below(a, a)
    ensures Below(a, b) && Below(b, c) ==> Below(a, c)
    ensures a == b || Below(a, b) || Below(b, a)
    ensures !(Below(a, b) && Below(b, a))
  {
  }

  /** `as_str`. */
  function AsStr(l: LogLevel): string
  {
    match l
    case Trace => "TRACE"
    case Debug => "DEBUG"
    case Info => "INFO"
    case Warn => "WARN"
    case Error => "ERROR"
  }

  /** The level a name denotes, when it is one of the five. */
  function ParseLevel(s: string): (r: Option<LogLevel>)
    ensures r.Some? ==> AsStr(r.value) == s
  {
    if s == "TRACE" then Some(Trace)
    else if s == "DEBUG" then Some(Debug)
    else if s == "INFO" then Some(Info)
    else if s == "WARN" then Some(Warn)
    else if s == "ERROR" then Some(Error)
    else None
  }

  /** Each level has its own upper-case name. */
  lemma AsStrRoundTrip(l: LogLevel)
    ensures ParseLevel(AsStr(l)) == Some(l)
  {
  }

  // ---------------------------------------------------------------------
  // Configuration.

  datatype LogOutput = Console | File | Both
  datatype LogFormat = Human | Json | Structured

  datatype LoggerConfig = LoggerConfig(
    minLevel: LogLevel,
    output: LogOutput,
    consoleFormat: LogFormat,
    fileFormat: LogFormat,
    filePath: Option<AppPaths.Path>,
    maxFileSize: Option<nat>,
    maxFiles: Option<nat>,
    coloredOutput: bool,
    enabled: bool)

  const TenMiB: nat := 10 * 1024 * 1024

  /** `LoggerConfig::default()`, which is also what `main` passes: Info and
      above, to console and file, the log file under the application
      directory (or its fallback), rotated at 10 MiB over five files. */
  function DefaultLoggerConfig(env: AppPaths.Env, appDir: AppPaths.Dir, logsDir: AppPaths.Dir): (c: LoggerConfig)
    ensures c.minLevel == Info && c.output == Both && c.enabled && c.coloredOutput
    ensures c.consoleFormat == Human && c.fileFormat == Json
    ensures c.filePath == Some(AppPaths.LogFileOrFallback(env, appDir, logsDir))
    ensures c.maxFileSize == Some(10485760) && c.maxFiles == Some(5)
  {
    LoggerConfig(Info, Both, Human, Json, Some(AppPaths.LogFileOrFallback(env, appDir, logsDir)),
                 Some(TenMiB), Some(5), true, true)
  }

  // ---------------------------------------------------------------------
  // Writing one entry.

  datatype Stream = Stdout | Stderr

  /** `log_to_console`: errors to standard error, everything else to
      standard output. */
  function ConsoleStream(l: LogLevel): (s: Stream)
    ensures s == Stderr <==> l == Error
  {
    match l
    case Error => Stderr
    case _ => Stdout
  }

  /** The log file as `write_to_file` finds it: whether it exists, what
      reading its metadata gives, and how rotating and appending go. */
  datatype FileState = FileState(present: bool, size: Result<nat, string>, rotate: Outcome, append: Outcome)

  /** Rotation is due: a size limit is set, the file exists, its size can be
      read and has reached the limit. */
  predicate RotationDue(c: LoggerConfig, f: FileState)
  {
    c.maxFileSize.Some? && f.present && f.size.Ok? && f.size.value >= c.maxFileSize.value
  }

  datatype Written = Written(rotationAttempted: bool, result: Result<(), string>)

  /** `write_to_file`: check the size when a limit is set and the file
      exists (a metadata error is returned), rotate when due (a rotation
      error is returned), then append. */
  function WriteToFile(c: LoggerConfig, f: FileState): (w: Written)
    ensures w.rotationAttempted <==> RotationDue(c, f)
    ensures w.result.Ok? <==>
      !(c.maxFileSize.Some? && f.present && f.size.Err?) && (RotationDue(c, f) ==> f.rotate.Done?) && f.append.Done?
    ensures c.maxFileSize.None? || !f.present ==> (w.result.Ok? <==> f.append.Done?)
  {
    if c.maxFileSize.Some? && f.present then
      match f.size
      case Err(e) => Written(false, Err(e))
      case Ok(len) =>
        if len >= c.maxFileSize.value then
          if f.rotate.Failed? then Written(true, Err(f.rotate.reason))
          else Written(true, if f.append.Done? then Ok(()) else Err(f.append.reason))
        else Written(false, if f.append.Done? then Ok(()) else Err(f.append.reason))
    else Written(false, if f.append.Done? then Ok(()) else Err(f.append.reason))
  }

  /** What became of an entry. */
  datatype Emitted =
    | ToConsole(stream: Stream)
    | ToFile(rotated: bool)
    | FileFailed(reason: string)

  /** `log_to_file`: nothing without a file path; a write error is reported
      on standard error and otherwise ignored. */
  function LogToFile(c: LoggerConfig, f: FileState): (e: seq<Emitted>)
    ensures c.filePath.None? <==> e == []
    ensures |e| <= 1
  {
    if c.filePath.None? then []
    else
      var w := WriteToFile(c, f);
      if w.result.Ok? then [ToFile(w.rotationAttempted)] else [FileFailed(w.result.error)]
  }

  /** The entry passes the filter. */
  predicate Passes(c: LoggerConfig, l: LogLevel)
  {
    c.enabled && !Below(l, c.minLevel)
  }

  /** `LoggerService::log`: filtered by `enabled` and the minimum level,
      then written to the console, the file, or the console and then the
      file. */
  function Log(c: LoggerConfig, l: LogLevel, f: FileState): (e: seq<Emitted>)
    ensures !Passes(c, l) ==> e == []
    ensures Passes(c, l) && c.output == Console ==> e == [ToConsole(ConsoleStream(l))]
    ensures Passes(c, l) && c.output == File ==> e == LogToFile(c, f)
    ensures Passes(c, l) && c.output == Both ==> e == [ToConsole(ConsoleStream(l))] + LogToFile(c, f)
  {
    if !c.enabled || Below(l, c.minLevel) then []
    else
      match c.output
      case Console => [ToConsole(ConsoleStream(l))]
      case File => LogToFile(c, f)
      case Both => [ToConsole(ConsoleStream(l))] + LogToFile(c, f)
  }

  /** The filter is upward closed: when an entry is written, an entry of any
      higher level would be written too, to the same places. */
  lemma FilterUpwardClosed(c: LoggerConfig, l1: LogLevel, l2: LogLevel, f: FileState)
    requires !Below(l2, l1) && Log(c, l1, f) != []
    ensures Log(c, l2, f) != []
    ensures |Log(c, l2, f)| == |Log(c, l1, f)|
  {
  }

  /** Whatever goes to the console goes to standard error exactly for
      errors. */
  lemma ConsoleRouting(c: LoggerConfig, l: LogLevel, f: FileState, i: nat)
    requires i < |Log(c, l, f)| && Log(c, l, f)[i].ToConsole?
    ensures Log(c, l, f)[i].stream == Stderr <==> l == Error
    ensures c.output != File && i == 0
  {
  }

  // ---------------------------------------------------------------------
  // The global logger.

  const AlreadyInitialized: string := "Logger already initialized"

  datatype Init = Init(global: Option<LoggerConfig>, result: Result<(), string>)

  /** `init_logger`: build the service (creating the log file's directory,
      which may fail), then claim the global slot, which fails when it is
      already taken.  For a one-segment path Rust's parent is the empty
      path, whose `create_dir_all` succeeds at once, so `createDir` is then
      `Done`; no caller passes such a path. */
  function InitLogger(global: Option<LoggerConfig>, c: LoggerConfig, createDir: Outcome): (r: Init)
    ensures global.Some? ==> r.global == global && r.result.Err?
    ensures global.None? ==> (r.result.Ok? <==> r.global == Some(c))
    ensures r.result.Ok? <==> global.None? && (c.filePath.Some? && |c.filePath.value| > 0 ==> createDir.Done?)
    ensures global.Some? && (c.filePath.None? || |c.filePath.value| == 0 || createDir.Done?) ==>
      r.result == Err(AlreadyInitialized)
  {
    var needsDir := c.filePath.Some? && AppPaths.Parent(c.filePath.value).Some?;
    if needsDir && createDir.Failed? then Init(global, Err(createDir.reason))
    else if global.Some? then Init(global, Err(AlreadyInitialized))
    else Init(Some(c), Ok(()))
  }

  /** The logger is initialised at most once: after a successful
      initialisation every further attempt fails and the first
      configuration stays. */
  lemma InitOnce(c1: LoggerConfig, d1: Outcome, cs: seq<LoggerConfig>, ds: seq<Outcome>)
    requires |cs| == |ds|
    requires InitLogger(None, c1, d1).result.Ok?
    ensures InitMany(InitLogger(None, c1, d1).global, cs, ds) == Some(c1)
    ensures forall i :: 0 <= i < |cs| ==> InitLogger(Some(c1), cs[i], ds[i]).result.Err?
  {
    InitManyKeeps(c1, cs, ds);
  }

  /** A sequence of initialisation attempts. */
  function InitMany(global: Option<LoggerConfig>, cs: seq<LoggerConfig>, ds: seq<Outcome>): Option<LoggerConfig>
    requires |cs| == |ds|
    decreases |cs|
  {
    if |cs| == 0 then global else InitMany(InitLogger(global, cs[0], ds[0]).global, cs[1..], ds[1..])
  }

  lemma {:induction false} InitManyKeeps(c: LoggerConfig, cs: seq<LoggerConfig>, ds: seq<Outcome>)
    requires |cs| == |ds|
    ensures InitMany(Some(c), cs, ds) == Some(c)
    decreases |cs|
  {
    if |cs| > 0 {
      InitManyKeeps(c, cs[1..], ds[1..]);
    }
  }

  // ---------------------------------------------------------------------
  // Temperature entries.

  datatype TemperatureLog = TemperatureLog(level: LogLevel, status: string, sensor: string)

  /** `log_temperature`: a warning marked "HOT" strictly above the
      threshold, information marked "OK" otherwise. */
  function LogTemperature(sensor: string, t: real, threshold: real): (r: TemperatureLog)
    ensures r.sensor == sensor
    ensures r.level == Warn <==> t > threshold
    ensures r.level == Info <==> t <= threshold
    ensures r.status == "HOT" <==> t > threshold
    ensures r.status == "OK" <==> t <= threshold
  {
    if t > threshold then TemperatureLog(Warn, "HOT", sensor) else TemperatureLog(Info, "OK", sensor)
  }

  /** With the configuration the program starts with, every temperature
      entry passes the filter and reaches both the console (standard output)
      and the file. */
  lemma TemperatureEntriesAlwaysWritten(env: AppPaths.Env, appDir: AppPaths.Dir, logsDir: AppPaths.Dir,
                                        sensor: string, t: real, threshold: real, f: FileState)
    ensures var c := DefaultLoggerConfig(env, appDir, logsDir);
      var e := Log(c, LogTemperature(sensor, t, threshold).level, f);
      |e| == 2 && e[0] == ToConsole(Stdout) && (e[1].ToFile? || e[1].FileFailed?)
  {
  }

  // ---------------------------------------------------------------------
  // Rotation: `rotate_logs`.

  /** The log files by number: 0 is the live file, `k >= 1` is the rotated
      file `base.k.ext`; each holds its contents. */
  type Files = map<nat, string>

  /** Which file the shifting loop moves into `i + 1`.  As written, for
      `i == 1` the loop takes the live file itself rather than `base.1.ext`. */
  function SourceAsWritten(i: nat): nat
  {
    if i == 1 then 0 else i
  }

  /** One turn of the loop for `i`: the source, when present, is deleted if
      `i` is the last index and renamed to `i + 1` otherwise (a rename
      replaces an existing target). */
  function ShiftStep(f: Files, i: nat, maxFiles: nat, asWritten: bool): Files
  {
    var src := if asWritten then SourceAsWritten(i) else i;
    if src !in f then f
    else if i == maxFiles - 1 then f - {src}
    else f[i + 1 := f[src]] - {src}
  }

  /** The loop `for i in (1..max_files).rev()`, from `i` down to 1. */
  function ShiftDown(f: Files, i: nat, maxFiles: nat, asWritten: bool): Files
    decreases i
  {
    if i == 0 then f else ShiftDown(ShiftStep(f, i, maxFiles, asWritten), i - 1, maxFiles, asWritten)
  }

  /** `rotate_logs`: without a file count nothing happens; otherwise shift
      the numbered files up, then rename the live file to number 1 if it is
      still there.  Every file operation is taken to succeed. */
  function RotateLogs(f: Files, maxFiles: Option<nat>, asWritten: bool): Files
  {
    match maxFiles
    case None => f
    case Some(n) =>
      var g := if n >= 1 then ShiftDown(f, n - 1, n, asWritten) else f;
      if 0 in g then g[1 := g[0]] - {0} else g
  }

  /** As written, the live file is moved to number 2 while number 1 stays
      where it was, so `base.1.ext` is never refreshed. */
  lemma RotationAsWrittenSkipsFirst()
    ensures RotateLogs(map[0 := "live", 1 := "older"], Some(5), true) == map[1 := "older", 2 := "live"]
    ensures RotateLogs(map[0 := "live", 1 := "older"], Some(5), false) == map[1 := "live", 2 := "older"]
  {
    var f := map[0 := "live", 1 := "older"];
    assert ShiftStep(f, 4, 5, true) == f;
    assert ShiftStep(f, 3, 5, true) == f;
    assert ShiftStep(f, 2, 5, true) == f;
    assert ShiftStep(f, 1, 5, true) == map[1 := "older", 2 := "live"];
    assert ShiftDown(f, 4, 5, true) == map[1 := "older", 2 := "live"];
    assert ShiftStep(f, 4, 5, false) == f;
    assert ShiftStep(f, 3, 5, false) == f;
    assert ShiftStep(f, 2, 5, false) == f;
    assert ShiftStep(f, 1, 5, false) == map[0 := "live", 2 := "older"];
    assert ShiftDown(f, 4, 5, false) == map[0 := "live", 2 := "older"];
  }

  /** As written, with two files the rotation deletes the live log. */
  lemma RotationAsWrittenDropsLiveFile()
    ensures RotateLogs(map[0 := "live"], Some(2), true) == map[]
    ensures RotateLogs(map[0 := "live"], Some(2), false) == map[1 := "live"]
  {
    var f := map[0 := "live"];
    assert ShiftStep(f, 1, 2, true) == map[];
    assert ShiftStep(f, 1, 2, false) == f;
  }

  predicate KeysBelow(f: Files, n: nat)
  {
    forall k :: k in f ==> k < n
  }

  /** Before the loop handles `i`: files up to `i` are untouched, `i + 1` is
      free, each file from `i + 2` on holds what the one below it held, and
      no number reaches the limit. */
  predicate ShiftInv(f: Files, g: Files, i: nat, n: nat)
  {
    && (forall k: nat :: k <= i ==> (k in g <==> k in f))
    && (forall k: nat :: k <= i && k in f ==> g[k] == f[k])
    && i + 1 !in g
    && (forall k: nat :: i + 2 <= k < n ==> (k in g <==> (k - 1) in f))
    && (forall k: nat :: i + 2 <= k < n && k in g ==> (k - 1) in f && g[k] == f[k - 1])
    && KeysBelow(g, n)
  }

  lemma ShiftStepKeepsInv(f: Files, g: Files, i: nat, n: nat)
    requires 1 <= i < n && ShiftInv(f, g, i, n)
    ensures ShiftInv(f, ShiftStep(g, i, n, false), i - 1, n)
  {
    var h := ShiftStep(g, i, n, false);
    if i !in g {
      assert h == g;
    } else if i == n - 1 {
      assert h == g - {i};
    } else {
      assert h == g[i + 1 := g[i]] - {i};
      assert h[i + 1] == f[i];
    }
  }

  lemma {:induction false} ShiftDownKeepsInv(f: Files, g: Files, i: nat, n: nat)
    requires i < n && ShiftInv(f, g, i, n)
    ensures ShiftInv(f, ShiftDown(g, i, n, false), 0, n)
    decreases i
  {
    if i > 0 {
      ShiftStepKeepsInv(f, g, i, n);
      ShiftDownKeepsInv(f, ShiftStep(g, i, n, false), i - 1, n);
    }
  }

  /** The corrected rotation shifts every file up by one: the live file
      becomes number 1, number `k` becomes `k + 1`, the oldest is dropped,
      and at most `max_files - 1` numbered files remain. */
  lemma RotationShiftsByOne(f: Files, n: nat)
    requires 2 <= n && KeysBelow(f, n) && 0 in f
    ensures var r := RotateLogs(f, Some(n), false);
      && 0 !in r && 1 in r && r[1] == f[0]
      && (forall k: nat :: 2 <= k < n ==> (k in r <==> (k - 1) in f))
      && (forall k: nat :: 2 <= k < n && k in r ==> r[k] == f[k - 1])
      && (forall k :: k in r ==> 1 <= k < n)
  {
    ShiftDownKeepsInv(f, f, n - 1, n);
    var g := ShiftDown(f, n - 1, n, false);
    assert 0 in g && g[0] == f[0];
  }

  /** The numbered files after `write_to_file` with the line `line`, for the
      file described by `f`: a due rotation that succeeds runs `rotate_logs`
      first (as written, or corrected when `asWritten` is false), and a
      successful append adds the line to the live file, which
      `create(true)` makes when it is absent. */
  function FilesAfterWrite(c: LoggerConfig, f: FileState, files: Files, line: string, asWritten: bool): (g: Files)
    ensures WriteToFile(c, f).result.Ok? ==>
      0 in g && |g[0]| >= |line| && g[0][|g[0]| - |line|..] == line
    ensures !WriteToFile(c, f).rotationAttempted ==>
      forall k :: k != 0 ==> (k in g <==> k in files) && (k in g ==> g[k] == files[k])
    ensures WriteToFile(c, f).result.Err? && !WriteToFile(c, f).rotationAttempted ==> g == files
  {
    var rotated := if WriteToFile(c, f).rotationAttempted && f.rotate.Done?
                   then RotateLogs(files, c.maxFiles, asWritten) else files;
    if WriteToFile(c, f).result.Ok? then rotated[0 := (if 0 in rotated then rotated[0] else "") + line]
    else rotated
  }

  /** With the corrected rotation, a write that finds the file due for
      rotation moves the live file out of the way before its own append,
      so the append starts a fresh live file holding only the new line, and
      the old live file becomes number 1. */
  lemma RotationThenFreshFile(c: LoggerConfig, f: FileState, files: Files, n: nat, line: string)
    requires RotationDue(c, f) && c.maxFiles == Some(n)
    requires 2 <= n && KeysBelow(files, n) && 0 in files
    ensures WriteToFile(c, f).rotationAttempted
    ensures 0 !in RotateLogs(files, c.maxFiles, false)
    ensures var after := f.(present := false);
      && !WriteToFile(c, after).rotationAttempted
      && (WriteToFile(c, after).result.Ok? <==> f.append.Done?)
    ensures f.rotate.Done? && f.append.Done? ==>
      var g := FilesAfterWrite(c, f, files, line, false);
      && WriteToFile(c, f).result.Ok?
      && 0 in g && g[0] == line
      && 1 in g && g[1] == files[0]
      && (forall k: nat :: 2 <= k < n ==> (k in g <==> (k - 1) in files))
      && (forall k :: k in g ==> k < n)
  {
    RotationShiftsByOne(files, n);
  }

  /** The shifting loop as written, from `i` down to 1, once every number
      above `i` is free: numbers 0 and 1 are left alone until `i == 1`,
      which moves the live file to number 2 rather than number 1. */
  lemma {:induction false} ShiftDownAsWrittenMovesLiveToSecond(g: Files, i: nat, n: nat)
    requires 3 <= n && 1 <= i < n
    requires 0 in g && i + 1 !in g
    ensures var r := ShiftDown(g, i, n, true);
      && 0 !in r && 2 in r && r[2] == g[0]
      && (1 in r <==> 1 in g) && (1 in r ==> r[1] == g[1])
    decreases i
  {
    if i >= 2 {
      var h := ShiftStep(g, i, n, true);
      assert 0 in h && h[0] == g[0] && i !in h;
      assert (1 in h <==> 1 in g) && (1 in h ==> h[1] == g[1]);
      ShiftDownAsWrittenMovesLiveToSecond(h, i - 1, n);
    }
  }

  /** The same write with the rotation as written: the append still starts
      a fresh live file, but with three or more files the old live file
      goes to number 2 and number 1 keeps its older contents, and with two
      files the old live file is deleted outright. */
  lemma RotationAsWrittenThenFreshFile(c: LoggerConfig, f: FileState, files: Files, n: nat, line: string)
    requires RotationDue(c, f) && c.maxFiles == Some(n)
    requires 2 <= n && KeysBelow(files, n) && 0 in files
    requires f.rotate.Done? && f.append.Done?
    ensures var g := FilesAfterWrite(c, f, files, line, true);
      && 0 in g && g[0] == line
      && (n >= 3 ==> 2 in g && g[2] == files[0] && (1 in g <==> 1 in files) && (1 in g ==> g[1] == files[1]))
      && (n == 2 ==> g == files[0 := line])
  {
    if n >= 3 {
      ShiftDownAsWrittenMovesLiveToSecond(files, n - 1, n);
    } else {
      assert ShiftDown(files, 1, 2, true) == files - {0};
    }
  }
}
