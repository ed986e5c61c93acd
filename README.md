# CronJob: job definition and due check of the cron agent

This project models the `CronJob` record of the cron agent (`agent/cronjob.go`) and its three
operations:

- `NeedSchedule`: the due check. A disabled job is never due. Otherwise the schedule string is
  compiled and cached. A schedule that fails to compile disables the job. A `LastExecAt` of zero
  is anchored at `CreateAt`. The job is due when the current time is more than 20 seconds past
  the next cron occurrence after `LastExecAt`.
- `OnTimeout`: the timeout policy. It returns the configured trigger code unchanged.
- `IsValid`: the admission gate. The schedule must compile, the runner must not be `root`, and
  the job must not be disabled.

Layout:

- `wrappers.dfy` (module `Wrappers`): `Option`, standing in for a possibly-nil pointer.
- `int64.dfy` (module `GoInt`): Go's `int64`, and `Sub64`, the wrapping subtraction the due
  check uses for `now - next`.
- `cronexpr.dfy` (module `Cronexpr`): the cron library, kept opaque. A compiled expression is
  an abstract type `Expr`. `Library` is a pair of total, deterministic functions: `parse` and
  `next`. Each operation takes the library as a parameter. Nothing else is assumed about it.
- `cronjob.dfy` (module `Agent`): the trigger and status codes, the `Job` snapshot, the due
  check as a function `Evaluate` with lemmas about it, and the class `CronJob`.

The class `CronJob` holds the modelled fields under camel-case names (`disabled` for
`Disabled`, `lastExecAt` for `LastExecAt`, and so on). The method `NeedSchedule` updates
`disabled`, `expression` and `lastExecAt` step by step, as the Go method does. The `modifies`
clause names only those three fields. The method's postcondition ties the new state and the
answer to `Evaluate` applied to the old state. The properties of the due check are proved
about `Evaluate`. `OnTimeout` and `IsValid` are functions, and each reads only the fields it
needs.

`EvaluateTicks` stands for the caller, which sits outside this file: the agent polls a job once
per tick, with no dispatch in between. `TicksSettle` and `DisabledTicksSilent` are therefore
properties of repeated `NeedSchedule` calls.

The wall clock (`time.Now().Unix()`) is the parameter `now`, in Unix seconds. `time.Unix`
and `.Unix()` are identities on whole seconds.

Where the code and its evident intent differ: when the schedule fails to compile, the Go code
sets `Disabled`, caches the nil expression and anchors `LastExecAt`. It does not return. At
line 72 it then calls `Next` on the nil expression. The model performs the same three updates
and then answers "not due". The literal behaviour is kept as `AsWrittenOutcome` (see
Findings).

## Model

| member | source | states |
|---|---|---|
| `Agent.Evaluate` | agent/cronjob.go:55-80 | A disabled job is not due and is unchanged. Otherwise the compiled schedule is cached, and the job becomes disabled exactly when compiling fails; a failed compile is not due. A `lastExecAt` of 0 becomes `createAt`; a nonzero one is kept, so it is never set to `now`. With a compiled schedule, the job is due iff the int64 difference `now - next > 20`, where `next` follows the anchored `lastExecAt`; without overflow, iff the exact difference exceeds 20. No field other than `disabled`, `expression` and `lastExecAt` changes, so the counters, `lastStatus` and the rest are untouched. |
| `Agent.CronJob.NeedSchedule` | agent/cronjob.go:55-80 | Changes only `Disabled`, `expression` and `LastExecAt`. The new state and the answer are exactly those `Evaluate` gives for the old state. A job that passed `IsValid` before the call is not disabled after it. |
| `Agent.Idempotent` | agent/cronjob.go:55-80 | A second due check at the same `now` returns the same answer and leaves the same state as the first. |
| `Agent.StateSettles` | agent/cronjob.go:60-69 | The state after one due check is left unchanged by a due check at any other time. |
| `Agent.ToleranceBoundary` | agent/cronjob.go:71-79 | For an enabled job with a compiling schedule, being 19 or 20 seconds past the next occurrence is not due, and 21 seconds is due. |
| `Agent.DueMonotone` | agent/cronjob.go:71-79 | Without int64 overflow, a job that is due at `now` is still due at any later time. |
| `Agent.EvaluateTicks` | agent/cronjob.go:55-80 | Repeated due checks of one job, one per tick time and with no dispatch in between, give exactly one answer per tick. |
| `Agent.TicksSettle` | agent/cronjob.go:55-80 | Over any non-empty series of due checks with no dispatch in between, only the first check changes the job. Each answer equals the due check of that settled job at its own time. |
| `Agent.DisabledTicksSilent` | agent/cronjob.go:56-58 | A disabled job answers "not due" on every tick of any series, and no field changes. |
| `Agent.AsWrittenOutcome` | agent/cronjob.go:55-80 | The due check as written, with no early return. It ends at the call to `Next` on nil exactly when the job is enabled and its schedule fails to compile. Wherever it returns, its answer equals the corrected due check's. Where it fails, the corrected due check instead disables the job and answers "not due". |
| `Agent.AsWrittenCallsNextOnNil` | agent/cronjob.go:60-72 | As written, an enabled job whose schedule fails to compile reaches the call to `Next` on the nil expression. For the same job, the corrected due check returns "not due" with the job disabled, the nil expression cached and `LastExecAt` anchored, and nothing else changed. |
| `Agent.AsWrittenAgreesOtherwise` | agent/cronjob.go:55-80 | On every other input, the code as written returns what `Evaluate` returns. |
| `Agent.CronJob.OnTimeout` | agent/cronjob.go:83-85 | Returns exactly `OnTimeoutTrigger`, whatever integer it holds. It reads no other field, so changing other fields cannot change its result. It decodes to `Kill` iff the configured code is `Kill`'s code. |
| `Agent.CronJob.IsValid` | agent/cronjob.go:88-98 | Holds iff all three hold: the schedule compiles, the runner is not `root`, and the job is not disabled. It reads only `Schedule`, `Runner` and `Disabled`, and it changes nothing. |
| `Agent.RootNeverValid` | agent/cronjob.go:93-96 | A job whose runner is `root` is never valid, whatever its other fields hold. |
| `Agent.ValidNeverDisables` | agent/cronjob.go:60-64 | A job that passes `IsValid` is not disabled by the next due check, at any time. |
| `Agent.TriggerModeOf` | agent/cronjob.go:10-13 | Decodes a trigger code. Exactly 0 and 1 are codes, and a decoded mode has the code it came from. |
| `Agent.TriggerCodeRoundTrip` | agent/cronjob.go:12-13 | `Ignore` has code 0 and `Kill` has code 1; encoding a mode and then decoding it gives the mode back. |
| `Agent.JobStatusOf` | agent/cronjob.go:15-19 | Decodes a status code. Exactly 0 through 4 are codes, and a decoded status has the code it came from. |
| `Agent.JobStatusCodeRoundTrip` | agent/cronjob.go:15-19 | Success, Fail, Timeout, Running and Killed have codes 0 through 4; encoding a status and then decoding it gives the status back. |
| `GoInt.Sub64` | agent/cronjob.go:74 | Go's int64 subtraction. It equals the exact difference when that fits in int64. Otherwise it differs from the exact difference by exactly 2^64. |
| `Agent.CronJob.FromRecord` | agent/cronjob.go:23-52 | A job object whose fields are exactly those of the given record. |

## Left out

- Logging (lines 62, 90, 94): it prints a message and has no effect on any result or field.
- The internals of the cron library: `parse` and `next` are opaque, deterministic parameters. The model says nothing about which strings compile or which times they produce. `time.Unix(cj.LastExecAt, 0)` (line 71) builds a time in the process's local time zone, and the library evaluates the cron fields in that zone. So `next` also stands for that time zone, fixed for the whole run.
- The wall clock: `now` is a parameter.
- The `Dcms` back-reference, the JSON tags and serialisation: they record ownership and encoding, and no logic in the file uses them.
- The fields `Executor`, `ExecutorFlags`, `Signature`, `Timeout`, `WebHookUrl`, `MsgFilter`, `Name` and `CreateUser`: they are not in the `Job` snapshot. No code in this file reads them, except the log message at line 62, which prints `Name`; logging is left out (line above).
- Status and statistics updates: the counter and status fields exist, but no function in `agent/cronjob.go` changes them. The model only proves that the due check leaves them unchanged.
- Conflict resolution by the newer `CreateAt`: it exists only as a comment (lines 37-38), with no code.
- The constants as mutable package variables: they are modelled as fixed enumerations with their codes. Reassigning them at run time is not modelled.

## Findings

| source | as written | input that shows it | evidently intended | confidence | as-written member | corrected member |
|---|---|---|---|---|---|---|
| agent/cronjob.go:60-72 | After a failed `cronexpr.Parse`, the code sets `Disabled` but does not return, and it calls `Next` on the nil expression at line 72. | An enabled job whose `Schedule` does not compile (for example `"not a cron line"`). | Disable the job and report it as not due. | not executed | `Agent.AsWrittenCallsNextOnNil` | `Agent.Evaluate` |
