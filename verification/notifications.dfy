/** The alert back-off state machine of `NotificationManager`
    (src/notifications.rs): whether a temperature excursion warrants an alert
    now, how long to wait before the next one, and the level increment that
    every sent alert performs.  Clock readings are Unix seconds passed in as
    `now`; the toast/message-box delivery is an `Outcome` parameter. */
module Notifications {
  import opened Common

  /** Base and cap of the back-off, fixed in `NotificationManager::new`.
      (The configuration's `base_cooldown_sec` is never consulted.) */
  const BaseCooldownSec: nat := 20
  const MaxCooldownSec: nat := 320

  /** `2^n`, the factor `2_u64.pow(level)` computes when it does not overflow. */
  function Pow2(n: nat): nat
  {
    if n == 0 then 1 else 2 * Pow2(n - 1)
  }

  datatype NotificationManager = NotificationManager(
    lastNotificationTime: Option<nat>,
    cooldownLevel: nat,
    baseCooldownSec: nat,
    maxCooldownSec: nat)

  /** Every manager the program builds has the constants of `new`. */
  predicate HasDefaultConstants(m: NotificationManager)
  {
    m.baseCooldownSec == BaseCooldownSec && m.maxCooldownSec == MaxCooldownSec
  }

  /** A fresh manager: no alert recorded, level 0, so the first re-alert
      cooldown would be the base. */
  function New(): (m: NotificationManager)
    ensures HasDefaultConstants(m)
    ensures Quiet(m)
    ensures CooldownDuration(m) == BaseCooldownSec
  {
    NotificationManager(None, 0, BaseCooldownSec, MaxCooldownSec)
  }

  /** No excursion is being tracked. */
  predicate Quiet(m: NotificationManager)
  {
    m.lastNotificationTime.None? && m.cooldownLevel == 0
  }

  /** Exponential back-off with a ceiling: the minimum of `base * 2^level`
      and `max`. */
  function CooldownDuration(m: NotificationManager): (d: nat)
    ensures d <= m.maxCooldownSec
    ensures d <= m.baseCooldownSec * Pow2(m.cooldownLevel)
    ensures d == m.maxCooldownSec || d == m.baseCooldownSec * Pow2(m.cooldownLevel)
  {
    Min(m.baseCooldownSec * Pow2(m.cooldownLevel), m.maxCooldownSec)
  }

  lemma {:induction false} Pow2Monotone(a: nat, b: nat)
    requires a <= b
    ensures Pow2(a) <= Pow2(b)
    decreases b
  {
    if a < b {
      Pow2Monotone(a, b - 1);
    }
  }

  lemma {:induction false} Pow2Add(a: nat, b: nat)
    ensures Pow2(a + b) == Pow2(a) * Pow2(b)
    decreases a
  {
    if a > 0 {
      Pow2Add(a - 1, b);
    }
  }

  /** Raising the level never shortens the cooldown. */
  lemma CooldownMonotone(m: NotificationManager, level: nat)
    requires m.cooldownLevel <= level
    ensures CooldownDuration(m) <= CooldownDuration(m.(cooldownLevel := level))
  {
    Pow2Monotone(m.cooldownLevel, level);
    assert m.baseCooldownSec * Pow2(m.cooldownLevel) <= m.baseCooldownSec * Pow2(level);
  }

  /** With the constants of `new`, the cooldown is 20, 40, 80, 160 and then
      stays at 320 for every level from 4 on. */
  lemma CooldownReachesCap(m: NotificationManager)
    requires HasDefaultConstants(m)
    requires m.cooldownLevel >= 4
    ensures CooldownDuration(m) == MaxCooldownSec
  {
    Pow2Monotone(4, m.cooldownLevel);
    assert Pow2(4) == 16;
  }

  /** The result of one `should_notify` call: whether to fire, and the
      manager afterwards. */
  datatype Decision = Decision(fire: bool, next: NotificationManager)

  /** The subtraction `current_time - last_time` is on `u64`; it is only
      reached when the temperature is high and an alert is recorded. */
  predicate CanDecide(m: NotificationManager, overThreshold: bool, now: nat)
  {
    overThreshold && m.lastNotificationTime.Some? ==> m.lastNotificationTime.value <= now
  }

  /** `should_notify`: a normal reading resets the back-off; a high reading
      fires when nothing is recorded or the cooldown has elapsed, and then
      records `now`.  The level is never raised here. */
  function ShouldNotify(m: NotificationManager, overThreshold: bool, now: nat): (r: Decision)
    requires CanDecide(m, overThreshold, now)
    ensures !overThreshold ==> !r.fire && Quiet(r.next)
    ensures overThreshold && m.lastNotificationTime.None? ==> r.fire
    ensures overThreshold && m.lastNotificationTime.Some? ==>
      (r.fire <==> now - m.lastNotificationTime.value >= CooldownDuration(m))
    ensures r.fire ==> r.next == m.(lastNotificationTime := Some(now))
    ensures overThreshold && !r.fire ==> r.next == m
    ensures r.next.baseCooldownSec == m.baseCooldownSec && r.next.maxCooldownSec == m.maxCooldownSec
    ensures r.next.cooldownLevel == (if overThreshold then m.cooldownLevel else 0)
  {
    if !overThreshold then
      Decision(false, m.(cooldownLevel := 0, lastNotificationTime := None))
    else if m.lastNotificationTime.Some? && now - m.lastNotificationTime.value < CooldownDuration(m) then
      Decision(false, m)
    else
      Decision(true, m.(lastNotificationTime := Some(now)))
  }

  /** How the alert reached the user: the toast, or the message box the code
      falls back to when the toast fails. */
  datatype Delivery = ByToast | ByMessageBox

  datatype AlertOutcome = AlertOutcome(next: NotificationManager, delivery: Delivery, result: Result<(), string>)

  /** `send_temperature_alert`: one delivery attempt, then the level goes up by
      exactly one whatever the toast reported, and the call reports success. */
  function SendTemperatureAlert(m: NotificationManager, toast: Outcome): (r: AlertOutcome)
    ensures r.next.cooldownLevel == m.cooldownLevel + 1
    ensures r.next.lastNotificationTime == m.lastNotificationTime
    ensures r.next.baseCooldownSec == m.baseCooldownSec && r.next.maxCooldownSec == m.maxCooldownSec
    ensures r.result.Ok?
    ensures r.delivery == ByMessageBox <==> toast.Failed?
  {
    var delivery := if toast.Done? then ByToast else ByMessageBox;
    AlertOutcome(m.(cooldownLevel := m.cooldownLevel + 1), delivery, Ok(()))
  }

  /** What the monitoring cycle does with the manager (src/main.rs:258-267):
      ask `should_notify`, and on a positive answer send the alert, which
      raises the level.  The toast outcome does not affect the state. */
  function NotifyStep(m: NotificationManager, overThreshold: bool, now: nat): (r: Decision)
    requires CanDecide(m, overThreshold, now)
    ensures r.fire == ShouldNotify(m, overThreshold, now).fire
    ensures r.fire ==> r.next.cooldownLevel == m.cooldownLevel + 1 && r.next.lastNotificationTime == Some(now)
    ensures !r.fire ==> r.next == ShouldNotify(m, overThreshold, now).next
  {
    var d := ShouldNotify(m, overThreshold, now);
    if d.fire then Decision(true, SendTemperatureAlert(d.next, Done).next) else d
  }

  /** Within the cycle, "no alert recorded" and "level 0" go together. */
  predicate Consistent(m: NotificationManager)
  {
    m.lastNotificationTime.None? <==> m.cooldownLevel == 0
  }

  lemma NotifyStepKeepsConsistent(m: NotificationManager, overThreshold: bool, now: nat)
    requires Consistent(m)
    requires CanDecide(m, overThreshold, now)
    ensures Consistent(NotifyStep(m, overThreshold, now).next)
  {
  }

  /** Once the temperature has been normal, the next high reading alerts at
      once, whatever happened before. */
  lemma FreshExcursionFiresAtOnce(m: NotificationManager, cleared: nat, now: nat)
    ensures NotifyStep(NotifyStep(m, false, cleared).next, true, now).fire
    ensures NotifyStep(NotifyStep(m, false, cleared).next, true, now).next.cooldownLevel == 1
  {
  }

  // ---------------------------------------------------------------------
  // Runs of the cycle over a stream of observations.

  datatype Observation = Observation(overThreshold: bool, now: nat)

  /** The clock never goes backwards, and not behind the recorded alert. */
  predicate Chronological(m: NotificationManager, obs: seq<Observation>)
  {
    && (forall i, j :: 0 <= i < j < |obs| ==> obs[i].now <= obs[j].now)
    && (|obs| > 0 && m.lastNotificationTime.Some? ==> m.lastNotificationTime.value <= obs[0].now)
  }

  datatype RunResult = RunResult(fired: seq<bool>, final: NotificationManager)

  lemma NotifyStepKeepsChronological(m: NotificationManager, obs: seq<Observation>)
    requires |obs| > 0 && Chronological(m, obs)
    ensures CanDecide(m, obs[0].overThreshold, obs[0].now)
    ensures Chronological(NotifyStep(m, obs[0].overThreshold, obs[0].now).next, obs[1..])
  {
  }

  /** Each step of the run finds its time subtraction defined: the only
      demand the source makes, since a normal reading or a first alert
      subtracts nothing, whatever the clock says. */
  predicate Decidable(m: NotificationManager, obs: seq<Observation>)
    decreases |obs|
  {
    |obs| == 0 ||
      (CanDecide(m, obs[0].overThreshold, obs[0].now) &&
       Decidable(NotifyStep(m, obs[0].overThreshold, obs[0].now).next, obs[1..]))
  }

  /** A clock that never goes backwards makes every run decidable. */
  lemma {:induction false} ChronologicalIsDecidable(m: NotificationManager, obs: seq<Observation>)
    requires Chronological(m, obs)
    ensures Decidable(m, obs)
    decreases |obs|
  {
    if |obs| > 0 {
      NotifyStepKeepsChronological(m, obs);
      ChronologicalIsDecidable(NotifyStep(m, obs[0].overThreshold, obs[0].now).next, obs[1..]);
    }
  }

  /** A clock that steps back is still fine while the readings are normal:
      a normal reading clears the record, so nothing is subtracted. */
  lemma BackwardClockOnNormalReadings(m: NotificationManager)
    ensures Decidable(m, [Observation(false, 100), Observation(false, 5), Observation(true, 3)])
    ensures !Chronological(m, [Observation(false, 100), Observation(false, 5), Observation(true, 3)])
  {
    var obs := [Observation(false, 100), Observation(false, 5), Observation(true, 3)];
    var m1 := NotifyStep(m, false, 100).next;
    var m2 := NotifyStep(m1, false, 5).next;
    assert Quiet(m2);
    assert obs[1..][1..][1..] == [];
    assert obs[0].now > obs[1].now;
  }

  /** Feed the observations through `NotifyStep` one after another. */
  function Run(m: NotificationManager, obs: seq<Observation>): (r: RunResult)
    requires Decidable(m, obs)
    ensures |r.fired| == |obs|
    decreases |obs|
  {
    if |obs| == 0 then RunResult([], m)
    else
      var d := NotifyStep(m, obs[0].overThreshold, obs[0].now);
      var rest := Run(d.next, obs[1..]);
      RunResult([d.fire] + rest.fired, rest.final)
  }

  function CountTrue(s: seq<bool>): nat
  {
    if |s| == 0 then 0 else (if s[0] then 1 else 0) + CountTrue(s[1..])
  }

  /** During one excursion the level counts exactly the alerts sent. */
  lemma {:induction false} LevelCountsAlerts(m: NotificationManager, obs: seq<Observation>)
    requires Decidable(m, obs)
    requires forall i :: 0 <= i < |obs| ==> obs[i].overThreshold
    ensures Run(m, obs).final.cooldownLevel == m.cooldownLevel + CountTrue(Run(m, obs).fired)
    decreases |obs|
  {
    if |obs| > 0 {
      var d := NotifyStep(m, obs[0].overThreshold, obs[0].now);
      LevelCountsAlerts(d.next, obs[1..]);
      assert [d.fire] + Run(d.next, obs[1..]).fired == Run(m, obs).fired;
      assert ([d.fire] + Run(d.next, obs[1..]).fired)[1..] == Run(d.next, obs[1..]).fired;
    }
  }

  /** A run that ends on a normal reading leaves the back-off reset. */
  lemma {:induction false} RunEndingNormalIsQuiet(m: NotificationManager, obs: seq<Observation>)
    requires Decidable(m, obs)
    requires |obs| > 0 && !obs[|obs| - 1].overThreshold
    ensures Quiet(Run(m, obs).final)
    decreases |obs|
  {
    var d := NotifyStep(m, obs[0].overThreshold, obs[0].now);
    if |obs| > 1 {
      assert obs[1..][|obs[1..]| - 1] == obs[|obs| - 1];
      RunEndingNormalIsQuiet(d.next, obs[1..]);
    }
  }

  lemma MulLeft(a: nat, b: nat, c: nat)
    requires b <= c
    ensures a * b <= a * c
  {
  }

  /** From level 1 on, the cooldown is at least `min(2 * base, max)`. */
  lemma CooldownAtLeastTwiceBase(m: NotificationManager)
    requires m.cooldownLevel >= 1
    ensures CooldownDuration(m) >= Min(2 * m.baseCooldownSec, m.maxCooldownSec)
  {
    Pow2Monotone(1, m.cooldownLevel);
    MulLeft(m.baseCooldownSec, 2, Pow2(m.cooldownLevel));
  }

  /** The decisions of a run after its first step are those of the run
      from the state that step left. */
  lemma RunTail(m: NotificationManager, obs: seq<Observation>)
    requires |obs| > 0 && Decidable(m, obs)
    ensures var d := NotifyStep(m, obs[0].overThreshold, obs[0].now);
      && Run(m, obs).fired[0] == d.fire
      && Run(m, obs).fired[1..] == Run(d.next, obs[1..]).fired
  {
  }

  /** Rate limit: once an alert has been sent in an excursion (level at least
      one), the next alert of that excursion comes no sooner than
      `min(2 * base, max)` seconds later — 40 s with the constants of `new`,
      because the very first alert already raised the level. */
  lemma {:induction false} NextAlertWaitsAtLeastTwiceBase(m: NotificationManager, obs: seq<Observation>, k: nat)
    requires Decidable(m, obs)
    requires Consistent(m) && m.lastNotificationTime.Some?
    requires forall i :: 0 <= i < |obs| ==> obs[i].overThreshold
    requires k < |obs| && Run(m, obs).fired[k]
    requires forall i :: 0 <= i < k ==> !Run(m, obs).fired[i]
    ensures obs[k].now >= m.lastNotificationTime.value + Min(2 * m.baseCooldownSec, m.maxCooldownSec)
    decreases k
  {
    RunTail(m, obs);
    var d := NotifyStep(m, obs[0].overThreshold, obs[0].now);
    if k == 0 {
      CooldownAtLeastTwiceBase(m);
    } else {
      assert !d.fire && d.next == m;
      var tail := Run(m, obs).fired[1..];
      assert forall i :: 0 <= i < k - 1 ==> !tail[i] by {
        assert forall i :: 0 <= i < k - 1 ==> tail[i] == Run(m, obs).fired[i + 1];
      }
      assert tail[k - 1];
      NextAlertWaitsAtLeastTwiceBase(m, obs[1..], k - 1);
    }
  }

  /** An escalation run replayed on the code as written (threshold
      crossings at t = 0, 10, 25, a normal reading at 30, a crossing at
      31): the alert at 0 raises the level to 1, so the
      cooldown at t = 25 is 40 s and that reading is suppressed; the normal
      reading resets, and t = 31 alerts at once. */
  lemma EscalationScenario()
    ensures Run(New(), [Observation(true, 0), Observation(true, 10), Observation(true, 25),
                        Observation(false, 30), Observation(true, 31)]).fired
            == [true, false, false, false, true]
    ensures Run(New(), [Observation(true, 0), Observation(true, 10), Observation(true, 25),
                        Observation(false, 30), Observation(true, 31)]).final.cooldownLevel == 1
  {
    var obs := [Observation(true, 0), Observation(true, 10), Observation(true, 25),
                Observation(false, 30), Observation(true, 31)];
    var m1 := NotifyStep(New(), true, 0).next;
    assert m1 == NotificationManager(Some(0), 1, 20, 320);
    assert CooldownDuration(m1) == 40;
    assert NotifyStep(m1, true, 10).next == m1;
    assert NotifyStep(m1, true, 25).next == m1;
    var m4 := NotifyStep(m1, false, 30).next;
    assert Quiet(m4);
    assert obs[1..][1..][1..][1..][1..] == [];
  }

  // ---------------------------------------------------------------------
  // The cooldown as the 64-bit arithmetic of the source computes it.

  const U64Modulus: nat := 0x1_0000_0000_0000_0000

  /** `base * 2_u64.pow(level)` with the wrapping `u64` arithmetic of a build
      without overflow checks, then `min(max)`. */
  function CooldownDurationU64(m: NotificationManager): nat
  {
    Min((m.baseCooldownSec * (Pow2(m.cooldownLevel) % U64Modulus)) % U64Modulus, m.maxCooldownSec)
  }

  lemma MulStrip(n: int, t: int)
    requires n > 0 && 0 <= n * t < n
    ensures t == 0
  {
    assert t >= 1 ==> n * t == n + n * (t - 1);
    assert t >= 1 ==> n * (t - 1) >= 0;
    assert t <= -1 ==> n * t == -n + n * (t + 1);
    assert t <= -1 ==> n * (t + 1) <= 0;
  }

  lemma ModOfMultiple(n: int, q: int)
    requires n > 0
    ensures (n * q) % n == 0
  {
    var x := n * q;
    assert x == n * (x / n) + x % n;
    assert n * (q - x / n) == x % n;
    MulStrip(n, q - x / n);
  }

  lemma Pow2Of62()
    ensures Pow2(62) == 0x4000_0000_0000_0000
  {
    assert Pow2(4) == 16;
    Pow2Add(4, 4);
    Pow2Add(8, 8);
    Pow2Add(16, 16);
    Pow2Add(16, 14);
    Pow2Add(8, 6);
    Pow2Add(4, 2);
    Pow2Add(32, 30);
  }

  /** Where the wrapping formula collapses: from level 62 on, the product is a
      multiple of 2^64 and the cooldown becomes 0 — every high reading then
      alerts — while the intended formula gives 320. */
  lemma CooldownU64CollapsesAtLevel62(m: NotificationManager)
    requires HasDefaultConstants(m)
    requires m.cooldownLevel >= 62
    ensures CooldownDurationU64(m) == 0
    ensures CooldownDuration(m) == MaxCooldownSec
  {
    CooldownReachesCap(m);
    Pow2Of62();
    var l := m.cooldownLevel;
    if l == 62 {
      assert (20 * (Pow2(l) % U64Modulus)) % U64Modulus == 0;
    } else if l == 63 {
      assert Pow2(l) == 2 * Pow2(62);
      assert (20 * (Pow2(l) % U64Modulus)) % U64Modulus == 0;
    } else {
      Pow2Add(62, 2);
      assert Pow2(64) == U64Modulus;
      Pow2Add(64, l - 64);
      ModOfMultiple(U64Modulus, Pow2(l - 64));
      assert Pow2(l) % U64Modulus == 0;
    }
  }
}
