/**
 The job definition of the cron agent and its three operations: the due check
 (`NeedSchedule`), the timeout policy (`OnTimeout`) and the admission gate (`IsValid`).

 The wall clock is the parameter `now` (Unix seconds) and the cron library is the
 parameter `lib` (see module Cronexpr).
 */
module Agent {
  import opened Wrappers
  import opened GoInt
  import opened Cronexpr

  /** Seconds by which the next occurrence must have lapsed before a job is due. */
  const Tolerance: int64 := 20

  /** The account no job may run as. */
  const Superuser: string := "root"

  // ---------------------------------------------------------------------------
  // Trigger and status codes. The Go code declares them as package variables
  // initialised to 0..1 and 0..4; here they are fixed enumerations with their codes.
  // ---------------------------------------------------------------------------

  /** What to do with an execution that outlives its timeout. */
  datatype TriggerMode = Ignore | Kill {
    function Code(): (c: int) {
      match this
      case Ignore => 0
      case Kill => 1
    }
  }

  function TriggerModeOf(code: int): (m: Option<TriggerMode>)
    ensures m.Some? <==> 0 <= code <= 1
    ensures m.Some? ==> m.value.Code() == code
  {
    if code == 0 then Some(Ignore)
    else if code == 1 then Some(Kill)
    else None
  }

  lemma TriggerCodeRoundTrip(t: TriggerMode)
    ensures TriggerModeOf(t.Code()) == Some(t)
  {
  }

  /** Outcome of one execution attempt, as recorded in `LastStatus`. */
  datatype JobStatus = Success | Fail | Timeout | Running | Killed {
    function Code(): (c: int) {
      match this
      case Success => 0
      case Fail => 1
      case Timeout => 2
      case Running => 3
      case Killed => 4
    }
  }

  function JobStatusOf(code: int): (s: Option<JobStatus>)
    ensures s.Some? <==> 0 <= code <= 4
    ensures s.Some? ==> s.value.Code() == code
  {
    match code
    case 0 => Some(Success)
    case 1 => Some(Fail)
    case 2 => Some(Timeout)
    case 3 => Some(Running)
    case 4 => Some(Killed)
    case _ => None
  }

  lemma JobStatusCodeRoundTrip(s: JobStatus)
    ensures JobStatusOf(s.Code()) == Some(s)
  {
  }

  // ---------------------------------------------------------------------------
  // The job record as a value, and the due check as a function on it
  // ---------------------------------------------------------------------------

  /** A snapshot of every modelled field of a `CronJob`. */
  datatype Job = Job(
    id: int64,
    schedule: string,
    runner: string,
    onTimeoutTrigger: int,
    disabled: bool,
    createAt: int64,
    expression: Option<Expr>,
    successCnt: int,
    errCnt: int,
    timeoutCnt: int,
    lastTaskId: string,
    lastSuccessAt: int64,
    lastErrAt: int64,
    lastStatus: int,
    lastExecAt: int64)

  /** The time the next occurrence is computed from: `lastExecAt`, or `createAt` while it is unset. */
  function Anchored(j: Job): (t: int64) {
    if j.lastExecAt == 0 then j.createAt else j.lastExecAt
  }

  /** The job after a due check, and whether it is due. */
  datatype Decision = Decision(job: Job, due: bool)

  /**
   The due check. A disabled job is left alone and is not due. Otherwise the schedule is
   compiled and cached, a failed compile disables the job, an unset `lastExecAt` is anchored
   at `createAt`, and the job is due when `now` is more than `Tolerance` seconds past the
   next occurrence after `lastExecAt` (the subtraction wraps like Go's int64).

   On a failed compile the Go method goes on to call `Next` on the nil expression; this
   definition returns "not due" at that point instead (see AsWrittenOutcome).
   */
  function Evaluate(j: Job, lib: Library, now: int64): (r: Decision)
    // A disabled job is never due and nothing about it changes.
    ensures j.disabled ==> r == Decision(j, false)
    // Only disabled, expression and lastExecAt can change.
    ensures r.job == j.(disabled := r.job.disabled, expression := r.job.expression, lastExecAt := r.job.lastExecAt)
    // The compiled schedule is cached, and a failed compile disables the job and is not due.
    ensures !j.disabled ==> r.job.expression == lib.parse(j.schedule)
    ensures !j.disabled ==> (r.job.disabled <==> lib.parse(j.schedule).None?)
    ensures !j.disabled && lib.parse(j.schedule).None? ==> !r.due
    // An unset lastExecAt is anchored at createAt; a set one is kept.
    ensures !j.disabled && j.lastExecAt == 0 ==> r.job.lastExecAt == j.createAt
    ensures j.lastExecAt != 0 ==> r.job.lastExecAt == j.lastExecAt
    // Due exactly when now lies more than Tolerance seconds after the next occurrence.
    ensures !j.disabled && lib.parse(j.schedule).Some? ==>
      var next := lib.next(lib.parse(j.schedule).value, r.job.lastExecAt);
      (r.due <==> Sub64(now, next) > Tolerance) &&
      (InRange(now as int - next as int) ==> (r.due <==> now as int - next as int > Tolerance as int))
  {
    if j.disabled then Decision(j, false)
    else
      var expression := lib.parse(j.schedule);
      var lastExecAt := Anchored(j);
      var job := j.(disabled := expression.None?, expression := expression, lastExecAt := lastExecAt);
      match expression
      case None => Decision(job, false)
      case Some(e) => Decision(job, Sub64(now, lib.next(e, lastExecAt)) > Tolerance)
  }

  /** A second due check at the same time returns the same answer and changes nothing. */
  lemma Idempotent(j: Job, lib: Library, now: int64)
    ensures var first := Evaluate(j, lib, now);
            Evaluate(first.job, lib, now) == first
  {
  }

  /** After one due check the job is a fixed point of the due check, at any later time. */
  lemma StateSettles(j: Job, lib: Library, now: int64, later: int64)
    ensures var settled := Evaluate(j, lib, now).job;
            Evaluate(settled, lib, later).job == settled
  {
  }

  /** The tolerance boundary: 19 or 20 seconds past the next occurrence is not due, 21 is. */
  lemma ToleranceBoundary(j: Job, lib: Library, e: Expr)
    requires !j.disabled && lib.parse(j.schedule) == Some(e)
    requires lib.next(e, Anchored(j)) as int + 21 <= MaxInt64
    ensures var next := lib.next(e, Anchored(j));
            !Evaluate(j, lib, next + 19).due &&
            !Evaluate(j, lib, next + 20).due &&
            Evaluate(j, lib, next + 21).due
  {
  }

  /** Without overflow, a job that is due stays due as time passes. */
  lemma DueMonotone(j: Job, lib: Library, e: Expr, now: int64, later: int64)
    requires !j.disabled && lib.parse(j.schedule) == Some(e)
    requires now <= later
    requires var next := lib.next(e, Anchored(j));
             InRange(now as int - next as int) && InRange(later as int - next as int)
    requires Evaluate(j, lib, now).due
    ensures Evaluate(j, lib, later).due
  {
  }

  // ---------------------------------------------------------------------------
  // Repeated due checks: the agent asks every tick; nothing is dispatched in between
  // ---------------------------------------------------------------------------

  /** The job and the answers after one due check per entry of `nows`, in order. */
  datatype Run = Run(job: Job, dues: seq<bool>)

  /**
   The caller's polling of one job: one due check per tick time in `nows`, with no dispatch
   in between. The polling loop itself is not part of agent/cronjob.go.
   */
  function EvaluateTicks(j: Job, lib: Library, nows: seq<int64>): (r: Run)
    ensures |r.dues| == |nows|
    decreases |nows|
  {
    if nows == [] then Run(j, [])
    else
      var first := Evaluate(j, lib, nows[0]);
      var rest := EvaluateTicks(first.job, lib, nows[1..]);
      Run(rest.job, [first.due] + rest.dues)
  }

  /**
   Only the first of a series of due checks changes the job; every answer in the series is
   the due check of that settled job at its own time.
   */
  lemma {:induction false} TicksSettle(j: Job, lib: Library, nows: seq<int64>)
    requires |nows| > 0
    ensures var settled := Evaluate(j, lib, nows[0]).job;
            var run := EvaluateTicks(j, lib, nows);
            run.job == settled &&
            |run.dues| == |nows| &&
            forall i :: 0 <= i < |nows| ==> run.dues[i] == Evaluate(settled, lib, nows[i]).due
    decreases |nows|
  {
    var first := Evaluate(j, lib, nows[0]);
    var rest := EvaluateTicks(first.job, lib, nows[1..]);
    Idempotent(j, lib, nows[0]);
    if |nows| > 1 {
      TicksSettle(first.job, lib, nows[1..]);
      StateSettles(j, lib, nows[0], nows[1]);
      assert rest.job == first.job;
      forall i | 1 <= i < |nows|
        ensures EvaluateTicks(j, lib, nows).dues[i] == Evaluate(first.job, lib, nows[i]).due
      {
        assert nows[1..][i - 1] == nows[i];
      }
    }
  }

  /** A disabled job answers "not due" on every tick and is left as it was. */
  lemma {:induction false} DisabledTicksSilent(j: Job, lib: Library, nows: seq<int64>)
    requires j.disabled
    ensures EvaluateTicks(j, lib, nows) == Run(j, seq(|nows|, _ => false))
    decreases |nows|
  {
    if nows != [] {
      DisabledTicksSilent(j, lib, nows[1..]);
    }
  }

  // ---------------------------------------------------------------------------
  // The due check exactly as written
  // ---------------------------------------------------------------------------

  /** How a call of the Go method `NeedSchedule` ends. */
  datatype Outcome = Returned(due: bool) | NextOnNil

  /**
   The Go method's due check without the correction: after a failed compile it does not
   return, so `Next` is called on the nil expression.
   */
  function AsWrittenOutcome(j: Job, lib: Library, now: int64): (o: Outcome)
    // It fails exactly on the path the corrected definition closes off.
    ensures o.NextOnNil? <==> !j.disabled && lib.parse(j.schedule).None?
    // Wherever it returns, it gives the corrected answer.
    ensures o.Returned? ==> o.due == Evaluate(j, lib, now).due
    // Where it fails, the corrected definition disables the job and answers "not due".
    ensures o.NextOnNil? ==> Evaluate(j, lib, now).job.disabled && !Evaluate(j, lib, now).due
  {
    if j.disabled then Returned(false)
    else
      match lib.parse(j.schedule)
      case None => NextOnNil
      case Some(e) => Returned(Sub64(now, lib.next(e, Anchored(j))) > Tolerance)
  }

  lemma AsWrittenCallsNextOnNil(j: Job, lib: Library, now: int64)
    requires !j.disabled && lib.parse(j.schedule).None?
    ensures AsWrittenOutcome(j, lib, now) == NextOnNil
    ensures Evaluate(j, lib, now) ==
            Decision(j.(disabled := true, expression := None, lastExecAt := Anchored(j)), false)
  {
  }

  /** Wherever the Go method does return, it returns what Evaluate does. */
  lemma AsWrittenAgreesOtherwise(j: Job, lib: Library, now: int64)
    requires j.disabled || lib.parse(j.schedule).Some?
    ensures AsWrittenOutcome(j, lib, now) == Returned(Evaluate(j, lib, now).due)
  {
  }

  // ---------------------------------------------------------------------------
  // The job object
  // ---------------------------------------------------------------------------

  class CronJob {
    var id: int64
    var schedule: string
    var runner: string
    var onTimeoutTrigger: int
    var disabled: bool
    var createAt: int64
    /** The cached compiled schedule; `None` stands for the nil pointer. */
    var expression: Option<Expr>
    var successCnt: int
    var errCnt: int
    var timeoutCnt: int
    var lastTaskId: string
    var lastSuccessAt: int64
    var lastErrAt: int64
    var lastStatus: int
    var lastExecAt: int64

    function View(): (v: Job)
      reads this
    {
      Job(id, schedule, runner, onTimeoutTrigger, disabled, createAt, expression,
          successCnt, errCnt, timeoutCnt, lastTaskId, lastSuccessAt, lastErrAt, lastStatus, lastExecAt)
    }

    /** A job object holding the fields of a received record. */
    constructor FromRecord(j: Job)
      ensures View() == j
    {
      id, schedule, runner, onTimeoutTrigger := j.id, j.schedule, j.runner, j.onTimeoutTrigger;
      disabled, createAt, expression := j.disabled, j.createAt, j.expression;
      successCnt, errCnt, timeoutCnt := j.successCnt, j.errCnt, j.timeoutCnt;
      lastTaskId, lastSuccessAt, lastErrAt := j.lastTaskId, j.lastSuccessAt, j.lastErrAt;
      lastStatus, lastExecAt := j.lastStatus, j.lastExecAt;
    }

    /** Decide whether the job is due at `now`, updating the cached schedule on the way. */
    method NeedSchedule(lib: Library, now: int64) returns (due: bool)
      modifies this`disabled, this`expression, this`lastExecAt
      ensures Decision(View(), due) == Evaluate(old(View()), lib, now)
      ensures old(IsValid(lib)) ==> !disabled
    {
      if disabled {
        return false;
      }
      var parsed := lib.parse(schedule);
      if parsed.None? {
        disabled := true;
      }
      expression := parsed;
      if lastExecAt == 0 {
        lastExecAt := createAt;
      }
      if parsed.None? {
        // The Go method does not stop here and calls Next on the nil expression;
        // the model answers "not due" instead.
        return false;
      }
      var next := lib.next(parsed.value, lastExecAt);
      if Sub64(now, next) > Tolerance {
        return true;
      }
      return false;
    }

    /** The configured timeout trigger, passed through whatever integer it is. */
    function OnTimeout(): (trigger: int)
      reads this`onTimeoutTrigger
      ensures trigger == onTimeoutTrigger
      ensures TriggerModeOf(trigger) == Some(Kill) <==> onTimeoutTrigger == Kill.Code()
    {
      onTimeoutTrigger
    }

    /** Admission gate: the schedule compiles, the runner is not root, the job is enabled. */
    function IsValid(lib: Library): (ok: bool)
      reads this`schedule, this`runner, this`disabled
      ensures ok <==> lib.parse(schedule).Some? && runner != Superuser && !disabled
    {
      if lib.parse(schedule).None? then false
      else if runner == Superuser then false
      else !disabled
    }
  }

  /** A root runner is rejected whatever the other fields hold. */
  lemma RootNeverValid(job: CronJob, lib: Library)
    requires job.runner == "root"
    ensures !job.IsValid(lib)
  {
  }

  /** A job that passed the admission gate is not disabled by the next due check. */
  lemma ValidNeverDisables(job: CronJob, lib: Library, now: int64)
    requires job.IsValid(lib)
    ensures !Evaluate(job.View(), lib, now).job.disabled
  {
  }
}
