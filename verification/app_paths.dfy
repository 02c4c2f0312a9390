/** Where the program keeps its files (src/app_paths.rs).  A path is the
    sequence of its components, so `join` is appending one component and
    `parent` is dropping the last one.  The environment variable, the
    working directory and the state of each directory to be created are
    parameters. */
module AppPaths {
  import opened Common

  type Path = seq<string>

  function Join(p: Path, name: string): (r: Path)
    ensures |r| == |p| + 1 && r[..|p|] == p && r[|p|] == name
  {
    p + [name]
  }

  /** `Path::parent`: none for the empty path. */
  function Parent(p: Path): (r: Option<Path>)
    ensures r.None? <==> |p| == 0
    ensures r.Some? ==> Join(r.value, p[|p| - 1]) == p
  {
    if |p| == 0 then None else Some(p[..|p| - 1])
  }

  /** The parent of a joined path is the path joined to. */
  lemma ParentOfJoin(p: Path, name: string)
    ensures Parent(Join(p, name)) == Some(p)
  {
    assert Join(p, name)[..|p|] == p;
  }

  /** What the process sees: `LOCALAPPDATA` and the working directory, each
      possibly unavailable. */
  datatype Env = Env(localAppData: Option<Path>, cwd: Option<Path>)

  /** A directory the getters create when missing. */
  datatype Dir = Exists | Creatable | CreateFails(reason: string)

  const AppDirName: string := "GpuTempWatch"
  const ConfigFileName: string := "config.json"
  const LogFileName: string := "gpu-temp-watch.log"
  const LogsDirName: string := "Logs"
  const MissingLocalAppData: string := "LOCALAPPDATA environment variable not found"

  /** `get_app_data_dir`: `LOCALAPPDATA/GpuTempWatch`, created when missing;
      a missing variable or a failed creation is the error. */
  function AppDataDir(env: Env, appDir: Dir): (r: Result<Path, string>)
    ensures env.localAppData.None? ==> r == Err(MissingLocalAppData)
    ensures env.localAppData.Some? && appDir.CreateFails? ==> r == Err(appDir.reason)
    ensures r.Ok? <==> env.localAppData.Some? && !appDir.CreateFails?
    ensures r.Ok? ==> r.value == Join(env.localAppData.value, AppDirName)
  {
    match env.localAppData
    case None => Err(MissingLocalAppData)
    case Some(base) =>
      if appDir.CreateFails? then Err(appDir.reason) else Ok(Join(base, AppDirName))
  }

  /** A file directly inside a directory that may not be available. */
  function Inside(dir: Result<Path, string>, name: string): (r: Result<Path, string>)
    ensures dir.Err? ==> r == dir
    ensures dir.Ok? ==> r == Ok(Join(dir.value, name))
  {
    match dir
    case Err(e) => Err(e)
    case Ok(d) => Ok(Join(d, name))
  }

  /** `get_config_path`. */
  function ConfigPath(env: Env, appDir: Dir): Result<Path, string>
  {
    Inside(AppDataDir(env, appDir), ConfigFileName)
  }

  /** `get_log_path`. */
  function LogPath(env: Env, appDir: Dir): Result<Path, string>
  {
    Inside(AppDataDir(env, appDir), LogFileName)
  }

  /** `get_logs_dir`: `Logs` inside the application directory, created when
      missing. */
  function LogsDir(env: Env, appDir: Dir, logsDir: Dir): (r: Result<Path, string>)
    ensures AppDataDir(env, appDir).Err? ==> r == AppDataDir(env, appDir)
    ensures AppDataDir(env, appDir).Ok? && logsDir.CreateFails? ==> r == Err(logsDir.reason)
    ensures r.Ok? ==> r.value == Join(AppDataDir(env, appDir).value, LogsDirName)
  {
    match AppDataDir(env, appDir)
    case Err(e) => Err(e)
    case Ok(d) => if logsDir.CreateFails? then Err(logsDir.reason) else Ok(Join(d, LogsDirName))
  }

  /** `get_log_file_path`. */
  function LogFilePath(env: Env, appDir: Dir, logsDir: Dir): Result<Path, string>
  {
    Inside(LogsDir(env, appDir, logsDir), LogFileName)
  }

  /** The working directory, or `.` when it cannot be read. */
  function CwdOrDot(env: Env): Path
  {
    if env.cwd.Some? then env.cwd.value else ["."]
  }

  /** `get_fallback_config_path`. */
  function FallbackConfigPath(env: Env): (p: Path)
    ensures |p| > 0 && p[|p| - 1] == ConfigFileName
    ensures Parent(p) == Some(CwdOrDot(env))
  {
    ParentOfJoin(CwdOrDot(env), ConfigFileName);
    Join(CwdOrDot(env), ConfigFileName)
  }

  /** `get_fallback_log_path`. */
  function FallbackLogPath(env: Env): (p: Path)
    ensures |p| > 0 && p[|p| - 1] == LogFileName
    ensures Parent(p) == Some(Join(CwdOrDot(env), LogsDirName))
  {
    ParentOfJoin(Join(CwdOrDot(env), LogsDirName), LogFileName);
    Join(Join(CwdOrDot(env), LogsDirName), LogFileName)
  }

  /** Every getter fails exactly when the application directory is not
      available (or, below it, the logs directory), with that error. */
  lemma GettersShareFailure(env: Env, appDir: Dir, logsDir: Dir)
    ensures ConfigPath(env, appDir).Err? <==> AppDataDir(env, appDir).Err?
    ensures LogPath(env, appDir).Err? <==> AppDataDir(env, appDir).Err?
    ensures AppDataDir(env, appDir).Err? ==> ConfigPath(env, appDir) == AppDataDir(env, appDir)
    ensures LogFilePath(env, appDir, logsDir).Err? <==>
      AppDataDir(env, appDir).Err? || logsDir.CreateFails?
    ensures env.localAppData.None? ==> LogFilePath(env, appDir, logsDir) == Err(MissingLocalAppData)
  {
  }

  /** The layout the path tests check: the config file, the flat log file
      and the logs directory sit in the application directory, and the log
      file in the logs directory. */
  lemma PathsConsistent(env: Env, appDir: Dir, logsDir: Dir)
    requires LogFilePath(env, appDir, logsDir).Ok?
    ensures var app := AppDataDir(env, appDir).value;
      && Parent(ConfigPath(env, appDir).value) == Some(app)
      && Parent(LogPath(env, appDir).value) == Some(app)
      && Parent(LogsDir(env, appDir, logsDir).value) == Some(app)
      && Parent(LogFilePath(env, appDir, logsDir).value) == Some(LogsDir(env, appDir, logsDir).value)
  {
    var app := AppDataDir(env, appDir).value;
    ParentOfJoin(app, ConfigFileName);
    ParentOfJoin(app, LogFileName);
    ParentOfJoin(app, LogsDirName);
    ParentOfJoin(LogsDir(env, appDir, logsDir).value, LogFileName);
  }

  /** The log file the program opens: the one under the application
      directory, or the fallback when that is unavailable. */
  function LogFileOrFallback(env: Env, appDir: Dir, logsDir: Dir): (p: Path)
    ensures |p| > 0 && p[|p| - 1] == LogFileName
    ensures |p| >= 2 && p[|p| - 2] == LogsDirName
  {
    match LogFilePath(env, appDir, logsDir)
    case Ok(p) => p
    case Err(_) => FallbackLogPath(env)
  }

  /** `Config` reads and writes `./config.json` (src/config.rs:57-59). */
  const ConfigStorePath: Path := [".", ConfigFileName]

  /** The path the configuration is kept at and the one this module names
      are built differently: the latter ends in a `GpuTempWatch` directory,
      the former is relative to the working directory (which may still be
      that directory, so the two can name the same file). */
  lemma ConfigLocationsDiffer(env: Env, appDir: Dir)
    requires ConfigPath(env, appDir).Ok?
    ensures ConfigPath(env, appDir).value != ConfigStorePath
  {
    var p := ConfigPath(env, appDir).value;
    assert p[|p| - 2] == AppDirName;
  }
}
