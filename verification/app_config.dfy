/** The persisted operating parameters (`Config`, src/config.rs): defaults,
    bounds validation, the two field setters and load-or-create.  The config
    file `./config.json` is an abstract store: its contents are either absent
    or what parsing them gave, and every save reports an `Outcome`. */
module AppConfig {
  import opened Common

  datatype Config = Config(
    temperatureThresholdC: real,
    pollIntervalSec: nat,
    baseCooldownSec: nat,
    enableLogging: bool,
    logFilePath: Option<string>)

  /** `Config::default()`. */
  function Default(): (c: Config)
    ensures Validate(c).Ok?
    ensures c.temperatureThresholdC == 60.0 && c.pollIntervalSec == 20 && c.baseCooldownSec == 20
    ensures c.enableLogging && c.logFilePath == Some("./Logs/GpuTempWatch.log")
  {
    Config(60.0, 20, 20, true, Some("./Logs/GpuTempWatch.log"))
  }

  /** Which bound `validate` found violated. */
  datatype ValidationError = ThresholdOutOfRange | PollIntervalOutOfRange | BaseCooldownOutOfRange

  function ValidationMessage(e: ValidationError): string
  {
    match e
    case ThresholdOutOfRange => "Temperature threshold must be between 0 and 150°C"
    case PollIntervalOutOfRange => "Poll interval must be between 5 and 3600 seconds"
    case BaseCooldownOutOfRange => "Base cooldown must be between 1 and 600 seconds"
  }

  predicate ThresholdInRange(c: Config) { 0.0 <= c.temperatureThresholdC <= 150.0 }
  predicate PollIntervalInRange(c: Config) { 5 <= c.pollIntervalSec <= 3600 }
  predicate BaseCooldownInRange(c: Config) { 1 <= c.baseCooldownSec <= 600 }

  predicate Valid(c: Config)
  {
    ThresholdInRange(c) && PollIntervalInRange(c) && BaseCooldownInRange(c)
  }

  /** `validate`: inclusive bounds, checked threshold first, then poll
      interval, then base cooldown; the first violation is reported. */
  function Validate(c: Config): (r: Result<(), ValidationError>)
    ensures r.Ok? <==> Valid(c)
    ensures r == Err(ThresholdOutOfRange) <==> !ThresholdInRange(c)
    ensures r == Err(PollIntervalOutOfRange) <==> ThresholdInRange(c) && !PollIntervalInRange(c)
    ensures r == Err(BaseCooldownOutOfRange) <==>
      ThresholdInRange(c) && PollIntervalInRange(c) && !BaseCooldownInRange(c)
  {
    if c.temperatureThresholdC < 0.0 || c.temperatureThresholdC > 150.0 then Err(ThresholdOutOfRange)
    else if c.pollIntervalSec < 5 || c.pollIntervalSec > 3600 then Err(PollIntervalOutOfRange)
    else if c.baseCooldownSec < 1 || c.baseCooldownSec > 600 then Err(BaseCooldownOutOfRange)
    else Ok(())
  }

  /** A setter's effect: the configuration after the assignment (kept even
      when saving fails) and what the call returned. */
  datatype Update = Update(config: Config, result: Result<(), string>)

  /** `update_threshold`: assign, then save; no validation. */
  function UpdateThreshold(c: Config, threshold: real, save: Outcome): (u: Update)
    ensures u.config == c.(temperatureThresholdC := threshold)
    ensures u.result.Ok? <==> save.Done?
    ensures save.Failed? ==> u.result == Err(save.reason)
  {
    var c' := c.(temperatureThresholdC := threshold);
    Update(c', if save.Done? then Ok(()) else Err(save.reason))
  }

  /** `update_poll_interval`: assign, then save; no validation. */
  function UpdatePollInterval(c: Config, interval: nat, save: Outcome): (u: Update)
    ensures u.config == c.(pollIntervalSec := interval)
    ensures u.result.Ok? <==> save.Done?
    ensures save.Failed? ==> u.result == Err(save.reason)
  {
    var c' := c.(pollIntervalSec := interval);
    Update(c', if save.Done? then Ok(()) else Err(save.reason))
  }

  /** The setters do not validate: a successful update can leave the
      configuration out of bounds. */
  lemma SettersBypassValidation()
    ensures UpdateThreshold(Default(), 200.0, Done).result.Ok?
    ensures !Valid(UpdateThreshold(Default(), 200.0, Done).config)
    ensures UpdatePollInterval(Default(), 1, Done).result.Ok?
    ensures !Valid(UpdatePollInterval(Default(), 1, Done).config)
  {
  }

  /** The two setters touch different fields, so their order does not matter. */
  lemma SettersCommute(c: Config, t: real, i: nat)
    ensures UpdatePollInterval(UpdateThreshold(c, t, Done).config, i, Done).config
         == UpdateThreshold(UpdatePollInterval(c, i, Done).config, t, Done).config
  {
  }

  /** The file `./config.json`: absent, or present with what reading and
      parsing it gave (an error message when that failed). */
  datatype Store = Absent | Present(contents: Result<Config, string>)

  /** What `load_or_create` returned and the store after it. */
  datatype Load = Load(result: Result<Config, string>, store: Store)

  /** `load_or_create`: an existing file is read and parsed (its errors are
      returned); a missing one is replaced by the defaults, which are saved
      first, and a failed save is returned as the error. */
  function LoadOrCreate(store: Store, save: Outcome): (l: Load)
    ensures store.Present? ==> l == Load(store.contents, store)
    ensures store.Absent? && save.Done? ==> l == Load(Ok(Default()), Present(Ok(Default())))
    ensures store.Absent? && save.Failed? ==> l.result == Err(save.reason) && l.store == Absent
  {
    match store
    case Present(contents) => Load(contents, store)
    case Absent =>
      if save.Done? then Load(Ok(Default()), Present(Ok(Default())))
      else Load(Err(save.reason), Absent)
  }

  /** Loading is idempotent: after a successful load-or-create, loading again
      returns the same configuration and writes nothing. */
  lemma LoadOrCreateIdempotent(store: Store, save1: Outcome, save2: Outcome)
    requires LoadOrCreate(store, save1).result.Ok?
    ensures LoadOrCreate(LoadOrCreate(store, save1).store, save2) == LoadOrCreate(store, save1)
  {
  }
}
