/** The ElDorado runner of src/eldorado.rs: restart backoff and the
    classification of errors into retry, restart or give up. */
module Eldorado {
  import opened Common
  import opened Utilities
  import opened Instances

  // ---------------------------------------------------------------------------
  // Errors
  // ---------------------------------------------------------------------------

  /** The `std::io::ErrorKind`s the sqlx handler tells apart. */
  datatype IoKind = ConnectionReset | OtherIoKind

  /** The `sqlx::Error` variants the handler tells apart. */
  datatype SqlxError = Io(kind: IoKind) | PoolTimedOut | PoolClosed | OtherSqlx

  /** What `reqwest::Error` reports about itself. */
  datatype ReqwestError = ReqwestError(isTimeout: bool, isConnect: bool, isRequest: bool, isStatus: bool, status: Option<int>)

  /** `RestError`: a transport error or anything else the client reports. */
  datatype RestError = RestReqwest(reqwest: ReqwestError) | OtherRest

  /** `ElDoradoError`. The WebSocket handler is not part of this model; a
      WebSocket error carries the verdict that handler gives. */
  datatype ElDoradoError =
    | Reqwest(reqwestError: ReqwestError)
    | Sqlx(sqlxError: SqlxError)
    | Ws(restartVerdict: bool)
    | Rest(restError: RestError)

  /** `handle_sqlx_error_for_restart`: restart on I/O errors of any kind and
      when the pool timed out or closed. */
  function HandleSqlxErrorForRestart(e: SqlxError): (r: bool)
    ensures r <==> e.Io? || e == PoolTimedOut || e == PoolClosed
  {
    match e
    case Io(_) => true
    case PoolTimedOut => true
    case PoolClosed => true
    case OtherSqlx => false
  }

  /** `handle_reqwest_error_for_restart`. */
  function HandleReqwestErrorForRestart(e: ReqwestError): (r: bool)
    ensures !r
  {
    false
  }

  /** `handle_error_for_restart`: only database and WebSocket errors can
      lead to a restart. */
  function HandleErrorForRestart(e: ElDoradoError): (r: bool)
    ensures r ==> e.Sqlx? || e.Ws?
    ensures e.Sqlx? ==> (r <==> HandleSqlxErrorForRestart(e.sqlxError))
    ensures e.Ws? ==> r == e.restartVerdict
  {
    match e
    case Sqlx(s) => HandleSqlxErrorForRestart(s)
    case Reqwest(q) => HandleReqwestErrorForRestart(q)
    case Ws(verdict) => verdict
    case Rest(_) => false
  }

  /** Restartable errors are exactly the transient database ones (and the
      WebSocket verdicts). */
  lemma RestartableErrors(e: ElDoradoError)
    ensures HandleErrorForRestart(e) <==>
      || (e.Sqlx? && (e.sqlxError.Io? || e.sqlxError == PoolTimedOut || e.sqlxError == PoolClosed))
      || (e.Ws? && e.restartVerdict)
  {
  }

  /** The server statuses retried every 30 seconds. */
  const RETRY_STATUSES: set<int> := {500, 502, 503, 504, 520, 522, 530}

  /** What `handle_rest_error` decides: wait and carry on after `seconds`, or
      hand the error back. */
  datatype RestOutcome = Retry(seconds: int) | GiveUp(error: ElDoradoError)

  /** `handle_rest_error`. */
  function HandleRestError(e: RestError): (r: RestOutcome)
    ensures e.OtherRest? ==> r == GiveUp(Rest(e))
    ensures e.RestReqwest? && r.GiveUp? ==> r.error == Reqwest(e.reqwest)
    ensures r.Retry? ==> r.seconds == 30 || r.seconds == 90
  {
    match e
    case OtherRest => GiveUp(Rest(e))
    case RestReqwest(q) =>
      if q.isTimeout || q.isConnect || q.isRequest then Retry(30)
      else if q.isStatus then
        match q.status
        case Some(s) =>
          if s in RETRY_STATUSES then Retry(30)
          else if s == 429 then Retry(90)
          else GiveUp(Reqwest(q))
        case None => GiveUp(Reqwest(q))
      else GiveUp(Reqwest(q))
  }

  /** The status table: server errors retry after 30 seconds, rate limiting
      after 90, every other status (or none) gives up; connection trouble
      retries after 30 whatever the status. */
  lemma RestErrorClassification(q: ReqwestError)
    ensures q.isTimeout || q.isConnect || q.isRequest ==> HandleRestError(RestReqwest(q)) == Retry(30)
    ensures !(q.isTimeout || q.isConnect || q.isRequest) ==>
      && (HandleRestError(RestReqwest(q)) == Retry(30) <==> q.isStatus && q.status.Some? && q.status.value in RETRY_STATUSES)
      && (HandleRestError(RestReqwest(q)) == Retry(90) <==> q.isStatus && q.status == Some(429))
      && (HandleRestError(RestReqwest(q)).GiveUp? <==>
            !q.isStatus || q.status.None? || (q.status.value !in RETRY_STATUSES && q.status.value != 429))
  {
  }

  // ---------------------------------------------------------------------------
  // Restart backoff
  // ---------------------------------------------------------------------------

  /** The (sleep seconds, new restart count) `process_restart` picks: a
      fresh start after a day without restarts, otherwise a wait that grows
      with the count (an unset count panics on `unwrap`). */
  function Backoff(inst: Instance, now: Instant): (r: Outcome<(int, int)>)
    ensures inst.lastRestartTs.None? || now - inst.lastRestartTs.value > Days(1) ==> r == Returns((5, 1))
    ensures inst.lastRestartTs.Some? && now - inst.lastRestartTs.value <= Days(1) ==>
      (r.Panics? <==> inst.restartCount.None?)
    ensures inst.lastRestartTs.Some? && now - inst.lastRestartTs.value <= Days(1) && r.Returns? ==>
      r.value.1 == inst.restartCount.value + 1
  {
    if inst.lastRestartTs.None? || now - inst.lastRestartTs.value > Days(1) then Returns((5, 1))
    else if inst.restartCount.None? then Panics
    else
      var count := inst.restartCount.value;
      Returns((if count == 0 then 5 else if count == 1 then 30 else 60, count + 1))
  }

  /** Waits are 5, 30 and then 60 seconds; each one is at least as long as
      the one before while restarts keep coming within the day. */
  lemma BackoffSchedule(inst: Instance, now: Instant)
    requires inst.lastRestartTs.Some? && now - inst.lastRestartTs.value <= Days(1)
    requires inst.restartCount.Some?
    ensures Backoff(inst, now).Returns?
    ensures inst.restartCount.value == 0 ==> Backoff(inst, now).value.0 == 5
    ensures inst.restartCount.value == 1 ==> Backoff(inst, now).value.0 == 30
    ensures inst.restartCount.value >= 2 ==> Backoff(inst, now).value.0 == 60
    ensures Backoff(inst, now).value.0 in {5, 30, 60}
  {
  }

  /** A second restart soon after the first waits at least as long. */
  lemma {:induction false} BackoffGrows(inst: Instance, first: Instant, now: Instant)
    requires Backoff(inst, first).Returns?
    requires inst.restartCount.None? || inst.restartCount.value >= 0
    requires first <= now <= first + Days(1)
    ensures var after := inst.(restart := true, restartCount := Some(Backoff(inst, first).value.1), lastRestartTs := Some(first));
      Backoff(after, now).Returns? && Backoff(after, now).value.0 >= Backoff(inst, first).value.0
  {
    var after := inst.(restart := true, restartCount := Some(Backoff(inst, first).value.1), lastRestartTs := Some(first));
    assert now - after.lastRestartTs.value <= Days(1);
    if inst.lastRestartTs.None? || first - inst.lastRestartTs.value > Days(1) {
      assert Backoff(after, now).value.0 == 30;
    } else {
      assert after.restartCount.value == inst.restartCount.value + 1;
    }
  }

  /** The instance after `process_restart` as written: the restart fields
      are written only when a restart is wanted. */
  function RestartState(inst: Instance, restart: bool, now: Instant, wake: Instant): (r: Outcome<Instance>)
    ensures r.Panics? <==> Backoff(inst, now).Panics?
    ensures r.Returns? && !restart ==> r.value == inst
    ensures r.Returns? && restart ==>
      r.value == inst.(restart := true, restartCount := Some(Backoff(inst, now).value.1), lastRestartTs := Some(wake))
  {
    match Backoff(inst, now)
    case Panics => Panics
    case Returns((_, count)) =>
      if restart then Returns(inst.(restart := restart, restartCount := Some(count), lastRestartTs := Some(wake)))
      else Returns(inst)
  }

  /** As written, declining a restart leaves `restart` set, so the
      `while self.instance.restart` loop of `run` goes round again instead
      of shutting down. */
  lemma NoRestartKeepsRunning(inst: Instance, now: Instant, wake: Instant)
    requires inst.restart
    requires Backoff(inst, now).Returns?
    ensures RestartState(inst, false, now, wake).value.restart
  {
  }

  /** The restart update with the decision recorded either way, as "No
      restart. Shutdown." intends. */
  function RestartStateFixed(inst: Instance, restart: bool, now: Instant, wake: Instant): (r: Outcome<Instance>)
    ensures r.Panics? <==> Backoff(inst, now).Panics?
    ensures r.Returns? ==> r.value.restart == restart
    ensures r.Returns? && !restart ==> r.value == inst.(restart := false)
    ensures r.Returns? && restart ==> r == RestartState(inst, restart, now, wake)
  {
    match Backoff(inst, now)
    case Panics => Panics
    case Returns((_, count)) =>
      if restart then Returns(inst.(restart := true, restartCount := Some(count), lastRestartTs := Some(wake)))
      else Returns(inst.(restart := false))
  }

  /** With the fix `run` stops once an error is not worth a restart. */
  lemma FixedShutsDown(inst: Instance, e: ElDoradoError, now: Instant, wake: Instant)
    requires !HandleErrorForRestart(e)
    requires Backoff(inst, now).Returns?
    ensures !RestartStateFixed(inst, HandleErrorForRestart(e), now, wake).value.restart
  {
  }

  /** The part of `ElDorado` the runner updates: its instance row. */
  class ElDorado {
    var instance: Instance

    constructor(instance: Instance)
      ensures this.instance == instance
    {
      this.instance := instance;
    }

    /** `process_restart`: `now` is the clock when the decision is taken and
        `wake` when the sleep is over; returns the sleep in seconds. */
    method ProcessRestart(restart: bool, now: Instant, wake: Instant) returns (r: Outcome<int>)
      modifies this
      ensures r.Panics? <==> Backoff(old(instance), now).Panics?
      ensures r.Panics? ==> instance == old(instance)
      ensures r.Returns? ==> r.value == Backoff(old(instance), now).value.0
      ensures r.Returns? ==> instance == RestartState(old(instance), restart, now, wake).value
    {
      var sleepDuration: int;
      var restartCount: int;
      if instance.lastRestartTs.None? || now - instance.lastRestartTs.value > Days(1) {
        sleepDuration, restartCount := 5, 1;
      } else {
        if instance.restartCount.None? {
          return Panics;
        }
        var count := instance.restartCount.value;
        if count == 0 {
          sleepDuration, restartCount := 5, count + 1;
        } else if count == 1 {
          sleepDuration, restartCount := 30, count + 1;
        } else {
          sleepDuration, restartCount := 60, count + 1;
        }
      }
      if restart {
        instance := instance.(restart := restart, restartCount := Some(restartCount), lastRestartTs := Some(wake));
      }
      return Returns(sleepDuration);
    }

    /** `ElDorado::create_date_range`: the half-open range at the frame's step. */
    method CreateDateRange(start: Instant, end: Instant, tf: TimeFrame) returns (r: seq<Instant>)
      ensures start >= end ==> r == []
      ensures start < end ==> |r| == CeilDiv(end - start, AsDur(tf)) && r[0] == start
      ensures forall i :: 0 <= i < |r| ==> r[i] == start + i * AsDur(tf) && r[i] < end
      ensures forall i :: 0 <= i < |r| - 1 ==> r[i + 1] - r[i] == AsDur(tf)
    {
      AsDurIsAsSecs(tf);
      r := Utilities.CreateDateRange(start, end, AsDur(tf));
      forall i | 0 <= i < |r|
        ensures r[i] == start + i * AsDur(tf)
      {
        NthIsProduct(start, i, AsDur(tf));
      }
      if start < end {
        CeilDivPositive(end - start, AsDur(tf));
      }
    }
  }

  lemma CeilDivPositive(n: int, d: int)
    requires n > 0 && d > 0
    ensures CeilDiv(n, d) >= 1
  {
    DivMonotone(d, n + d - 1, d);
    DivUnique(d, d, 1);
  }
}
