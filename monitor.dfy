/** The instance monitor of src/monitor.rs: per-status staleness thresholds
    and an hourly throttle on alerts. */
module Monitor {
  import opened Common
  import opened Markets
  import opened Instances

  import Exchanges

  /** The alert raised for an instance (the fields `Alert::new` is given). */
  datatype Alert = Alert(instanceType: InstanceType, droplet: string, exchangeName: Option<Exchanges.ExchangeName>, message: string)

  const INACTIVE_MITA: string := "Inactive Mita. "
  const DELAYED_SYNC: string := "Delayed Mita Sync. "
  const DELAYED_RESTART: string := "Delayed Mita Restart. "

  /** The hourly throttle: a message may be sent when none has been, or the
      last one is more than an hour old. */
  predicate MaySend(inst: Instance, now: Instant) {
    inst.lastMessageTs.None? || now - inst.lastMessageTs.value > Hours(1)
  }

  /** How long an instance in each watched status may go without updating,
      and what is said when it does; New, Paused and Terminated are not watched. */
  function Threshold(status: InstanceStatus): Option<(int, string)> {
    match status
    case Active => Some((Minutes(3), INACTIVE_MITA))
    case Sync => Some((Minutes(15), DELAYED_SYNC))
    case Restart => Some((Minutes(1), DELAYED_RESTART))
    case _ => None
  }

  /** `format!("{:?} {:?}. ", name, reason)`: both strings in quotes. */
  function Fragment(fail: (MarketDetail, string)): string {
    "\"" + fail.0.marketName + "\" \"" + fail.1 + "\". "
  }

  function Fragments(fails: seq<(MarketDetail, string)>): (r: string)
    ensures |fails| > 0 ==> |r| > 0
    decreases |fails|
  {
    if |fails| == 0 then "" else Fragments(fails[..|fails| - 1]) + Fragment(fails[|fails| - 1])
  }

  /** The message `monitor` builds for one instance. `fails` is what
      `inactive_markets` reported for it (read for Active instances only). */
  function AlertMessage(inst: Instance, fails: seq<(MarketDetail, string)>, now: Instant): string {
    match Threshold(inst.instanceStatus)
    case None => ""
    case Some((limit, text)) =>
      (if now - inst.lastUpdateTs > limit && MaySend(inst, now) then text else "")
      + (if inst.instanceStatus == Active && |fails| > 0 && MaySend(inst, now) then Fragments(fails) else "")
  }

  /** The instance after its pass: the last-message time moves to `now` iff
      a message went out. */
  function Touch(inst: Instance, fails: seq<(MarketDetail, string)>, now: Instant): Instance {
    if AlertMessage(inst, fails, now) != "" then inst.(lastMessageTs := Some(now)) else inst
  }

  /** The alert one instance raises in a pass: none, or one with its message. */
  function AlertFor(inst: Instance, fails: seq<(MarketDetail, string)>, now: Instant): (r: seq<Alert>)
    ensures |r| <= 1
  {
    var msg := AlertMessage(inst, fails, now);
    if msg != "" then [Alert(inst.instanceType, inst.droplet, inst.exchangeName, msg)] else []
  }

  function AlertsOf(insts: seq<Instance>, fails: seq<seq<(MarketDetail, string)>>, now: Instant): seq<Alert>
    requires |fails| == |insts|
    decreases |insts|
  {
    if |insts| == 0 then []
    else
      var n := |insts| - 1;
      AlertsOf(insts[..n], fails[..n], now) + AlertFor(insts[n], fails[n], now)
  }

  /** Every instance after its pass. */
  function TouchAll(insts: seq<Instance>, fails: seq<seq<(MarketDetail, string)>>, now: Instant): (r: seq<Instance>)
    requires |fails| == |insts|
    ensures |r| == |insts|
    decreases |insts|
  {
    if |insts| == 0 then []
    else
      var n := |insts| - 1;
      TouchAll(insts[..n], fails[..n], now) + [Touch(insts[n], fails[n], now)]
  }

  /** Each instance is stamped on its own account. */
  lemma {:induction false} TouchAllAt(insts: seq<Instance>, fails: seq<seq<(MarketDetail, string)>>, now: Instant, k: nat)
    requires |fails| == |insts| && k < |insts|
    ensures TouchAll(insts, fails, now)[k] == Touch(insts[k], fails[k], now)
    decreases |insts|
  {
    var n := |insts| - 1;
    if k < n {
      TouchAllAt(insts[..n], fails[..n], now, k);
      assert insts[..n][k] == insts[k];
      assert fails[..n][k] == fails[k];
    }
  }

  /** One more instance of the pass: its alert, if any, and its new state. */
  lemma PassStep(insts: seq<Instance>, fails: seq<seq<(MarketDetail, string)>>, i: nat, now: Instant)
    requires |fails| == |insts| && i < |insts|
    ensures AlertsOf(insts[..i + 1], fails[..i + 1], now) == AlertsOf(insts[..i], fails[..i], now) + AlertFor(insts[i], fails[i], now)
    ensures TouchAll(insts[..i + 1], fails[..i + 1], now)
        == TouchAll(insts[..i], fails[..i], now) + [Touch(insts[i], fails[i], now)]
  {
    assert insts[..i + 1][..i] == insts[..i];
    assert fails[..i + 1][..i] == fails[..i];
  }

  /** Unwatched statuses never raise an alert. */
  lemma UnwatchedNeverAlert(inst: Instance, fails: seq<(MarketDetail, string)>, now: Instant)
    requires inst.instanceStatus in {New, Paused, Terminated}
    ensures AlertMessage(inst, fails, now) == ""
  {
  }

  /** Nothing is said within an hour of the last message, whatever the status. */
  lemma ThrottleSilences(inst: Instance, fails: seq<(MarketDetail, string)>, now: Instant)
    requires inst.lastMessageTs.Some? && now - inst.lastMessageTs.value <= Hours(1)
    ensures AlertMessage(inst, fails, now) == ""
  {
  }

  /** Outside the throttle a watched instance that is overdue is reported
      with its status's text first, and an active instance's failing markets
      are reported iff there are any. */
  lemma OverdueIsReported(inst: Instance, fails: seq<(MarketDetail, string)>, now: Instant)
    requires MaySend(inst, now)
    ensures inst.instanceStatus == Active ==>
      AlertMessage(inst, fails, now) ==
        (if now - inst.lastUpdateTs > Minutes(3) then INACTIVE_MITA else "") + Fragments(fails)
    ensures inst.instanceStatus == Sync ==>
      (AlertMessage(inst, fails, now) == DELAYED_SYNC <==> now - inst.lastUpdateTs > Minutes(15))
    ensures inst.instanceStatus == Restart ==>
      (AlertMessage(inst, fails, now) == DELAYED_RESTART <==> now - inst.lastUpdateTs > Minutes(1))
    ensures inst.instanceStatus in {Sync, Restart} ==> AlertMessage(inst, fails, now) in {"", DELAYED_SYNC, DELAYED_RESTART}
  {
  }

  /** A pass that sent a message silences the next pass within the hour. */
  lemma TouchThrottles(inst: Instance, fails: seq<(MarketDetail, string)>, fails2: seq<(MarketDetail, string)>, now: Instant, later: Instant)
    requires AlertMessage(inst, fails, now) != ""
    requires now <= later <= now + Hours(1)
    ensures AlertMessage(Touch(inst, fails, now), fails2, later) == ""
  {
  }

  /** The message of `monitor`'s loop body for one instance, built up piece
      by piece as the source does with `push_str`. */
  method BuildMessage(inst: Instance, fails: seq<(MarketDetail, string)>, now: Instant) returns (message: string)
    ensures message == AlertMessage(inst, fails, now)
  {
    message := "";
    match inst.instanceStatus {
      case New =>
      case Paused =>
      case Terminated =>
      case Active =>
        if now - inst.lastUpdateTs > Minutes(3) {
          if inst.lastMessageTs.None? || now - inst.lastMessageTs.value > Hours(1) {
            message := message + INACTIVE_MITA;
          }
        }
        if |fails| > 0 {
          if inst.lastMessageTs.None? || now - inst.lastMessageTs.value > Hours(1) {
            message := AppendFragments(message, fails);
          }
        }
      case Sync =>
        if now - inst.lastUpdateTs > Minutes(15) {
          if inst.lastMessageTs.None? || now - inst.lastMessageTs.value > Hours(1) {
            message := message + DELAYED_SYNC;
          }
        }
      case Restart =>
        if now - inst.lastUpdateTs > Minutes(1) {
          if inst.lastMessageTs.None? || now - inst.lastMessageTs.value > Hours(1) {
            message := message + DELAYED_RESTART;
          }
        }
    }
  }

  /** The loop body of `monitor` for one instance: its alert, if it has a
      message, and the instance stamped with the time of that message. */
  method Pass(inst: Instance, fails: seq<(MarketDetail, string)>, now: Instant) returns (alert: seq<Alert>, after: Instance)
    ensures alert == AlertFor(inst, fails, now)
    ensures after == Touch(inst, fails, now)
  {
    var message := BuildMessage(inst, fails, now);
    if message != "" {
      alert := [Alert(inst.instanceType, inst.droplet, inst.exchangeName, message)];
      after := inst.(lastMessageTs := Some(now));
    } else {
      alert := [];
      after := inst;
    }
  }

  /** The loop pushing one fragment per failing market. */
  method AppendFragments(head: string, fails: seq<(MarketDetail, string)>) returns (message: string)
    ensures message == head + Fragments(fails)
  {
    message := head;
    for k := 0 to |fails|
      invariant message == head + Fragments(fails[..k])
    {
      assert fails[..k + 1][..k] == fails[..k];
      message := message + Fragment(fails[k]);
    }
    assert fails[..|fails|] == fails;
  }

  /** The state `monitor` reads and writes: the instances it loaded and the alerts table. */
  class Inquisidor {
    var instances: seq<Instance>
    var alerts: seq<Alert>

    constructor(instances: seq<Instance>)
      ensures this.instances == instances && this.alerts == []
    {
      this.instances := instances;
      this.alerts := [];
    }

    /** `Inquisidor::monitor`: for each instance, build its message, and if
        there is one, record the alert and stamp the instance. `fails[i]` is
        what `inactive_markets` returns for instance `i` and `now` the
        clock reading. */
    method Monitor(fails: seq<seq<(MarketDetail, string)>>, now: Instant)
      requires |fails| == |instances|
      modifies this
      ensures alerts == old(alerts) + AlertsOf(old(instances), fails, now)
      ensures instances == TouchAll(old(instances), fails, now)
    {
      var start := instances;
      var touched: seq<Instance> := [];
      var sent := alerts;
      for i := 0 to |start|
        invariant touched == TouchAll(start[..i], fails[..i], now)
        invariant sent == old(alerts) + AlertsOf(start[..i], fails[..i], now)
      {
        PassStep(start, fails, i, now);
        var alert, inst := Pass(start[i], fails[i], now);
        sent := sent + alert;
        touched := touched + [inst];
      }
      assert start[..|start|] == start;
      assert fails[..|fails|] == fails;
      instances := touched;
      alerts := sent;
    }
  }
}
