# gcalert polling loop — Dafny model

gcalert is a small Google Calendar alerter. It keeps two module-level lists:

- `events`: records fetched so far that had not started when they were fetched. A record that has since started stays here until a scan examines and evicts it.
- `alarmed_events`: records handed to the alarm display that are still pending. A record is appended after `do_alarm` returns, even when the notification could not be shown, and it leaves again when it is evicted.

Every 30 seconds it fetches the reminder occurrences for a date window and runs one iteration of its main loop. An iteration does three things:

1. **Add phase.** It appends each fetched record that is not already pending and starts after now.
2. **Scan.** It walks the pending list and evicts each record it examines whose start has passed, from both lists. The record right after an evicted one is skipped in that pass (see Findings).
3. **Alarm.** For each record it examines that has not started and is not yet alarmed, it raises the alarm once `now >= start - 60*minutes`, then appends the record to the alarmed list. A skipped record waits for a later iteration.

This project models one such iteration and proves what it keeps true, both within one iteration and across a run of iterations.

## Files and modules

- `events.dfy`, module `Events`. The record `Event(title, start, end, minutes)`, compared by all four fields like the Python dicts. It also holds the alarm instant `AlarmAt`, the `NoDup` predicate, and Python's `list.remove` as `RemoveFirst`.
- `add_phase.dfy`, module `AddPhase`. `AddNew` is the add phase as a function. `AddFetched` is the loop that computes it.
- `scan_phase.dfy`, module `ScanPhase`. `ScanSpec` describes the outcome of the scan record by record. `Scan` is the loop as written, and is proved equal to `ScanSpec`.
- `iteration.dfy`, module `Iteration`. `Step`, `StepSpec`, the state invariant `Inv`, runs of iterations (`Run`), and at-most-once alarming over a run.
- `intended_scan.dfy`, module `IntendedScan`. The scan in which every record is examined, and the concrete inputs on which the written scan differs from it (see Findings).
- `scenarios.dfy`, module `Scenarios`. Concrete timelines.

## Modelling decisions

- **The scan is modelled as written, not idealised.** The scan is `for e in events:` with `events.remove(e)` inside the loop. Python's list iterator walks by position. After a removal, the next record slides into the current slot and the iterator steps past it, so that record is not examined in this pass. `Scan` uses a position counter that always advances, and it calls `RemoveFirst` on the list it is walking. `ScanSpec` states the consequence: after each evicted record, the next one is left untouched. `ScanPhase.ScanStepsOver` and `ScanPhase.ScanFiresDue` characterise exactly which records are stepped over.
- **One integer clock.** The source compares `start` with a formatted `now` string. That works because the fixed format orders chronologically, but only while the local UTC offset does not change, since `now` is local wall time with a fixed `+01:00` suffix. The source computes the alarm instant in Unix seconds. Here both are one integer clock reading `now`, and a record's `start` is an instant on that clock.
- **Fetch and display are inputs and outputs.** The fetched list and `now` are parameters. Each record passed to the alarm display is appended to the `fired` output.
- **Duplicate-free pending list.** `Step` and `Scan` require a duplicate-free pending list. The program starts with empty lists (`Iteration.Init`). `Iteration.RunKeepsInv` proves that every state a run reaches is duplicate-free, and that every alarmed record is still pending.
- **What the program does not do.**
  - Pending records are never removed because they are missing from a later fetch. The add phase only appends (`Scenarios.FetchDoesNotReplace`).
  - Records carry no location.
  - A record is evicted when `start < now`. A record starting exactly at `now` stays pending and can still be alarmed.
  - There is one sequential loop, with no second thread and no lock.

## Model

| member | source | states |
|---|---|---|
| Events.RemoveFirst | gcalert.py:136-139 | `list.remove` shortens the list by one. It keeps every other value. On a duplicate-free list it removes the value entirely and keeps the list duplicate-free. |
| Events.RemoveFirstAt | gcalert.py:133-136 | Removing the value at a position that holds its first occurrence deletes exactly that position. This is what makes the iterator step over the next record. |
| AddPhase.AddNewMeaning | gcalert.py:123-131 | The old pending list stays as a prefix. A record ends up pending iff it was pending, or it was fetched and starts strictly after now. Only records absent before are appended. The list stays duplicate-free even when the fetch repeats a record. |
| AddPhase.AddFetched | gcalert.py:123-131 | The add loop computes `AddNew`. It keeps the old list as a prefix and admits exactly the fetched future records. It never introduces a repeat. |
| ScanPhase.Scan | gcalert.py:133-151 | The position-walking loop, with removal from the walked list, yields exactly the record-by-record outcome `ScanSpec`. That includes stepping over the record after each evicted one. |
| ScanPhase.ScanKeeps | gcalert.py:133-136 | The scan only keeps records that were pending. Every record that has not started is kept, including one whose start equals now. |
| ScanPhase.ScanKeepsNoDup | gcalert.py:133-136 | A duplicate-free pending list stays duplicate-free through the scan. |
| ScanPhase.ScanStepsOver | gcalert.py:133-136 | A record that has started survives the scan iff it sits right behind a started record that the scan evicted. |
| ScanPhase.ScanFires | gcalert.py:142-149 | An alarm fires only for a record that stays pending, was not alarmed, has not started, and has reached its alarm instant. No record fires twice in one scan. |
| ScanPhase.ScanAlarmed | gcalert.py:133-149 | Afterwards a record is alarmed iff it was alarmed and not evicted, or it just fired. The alarmed list stays duplicate-free. |
| ScanPhase.ScanFiresDue | gcalert.py:133-149 | A record that is due, has not started and is not alarmed fires iff the scan does not step over it. |
| Iteration.StepPending | gcalert.py:123-136 | A record is newly pending only if it was fetched and starts after now. A fetched record starting at or before now is not added. Every pending record that has not started, and every fetched record that starts after now, is pending afterwards, whether or not the fetch still reports it. The pending list stays duplicate-free. |
| Iteration.StepEvicts | gcalert.py:133-139 | A pending record that leaves the list had started before now, and it also leaves the alarmed list. A started record stays pending only when the scan stepped over it. |
| Iteration.StepAlarms | gcalert.py:142-151 | An alarm fires only for a record that is pending, was not alarmed, has not started and is due; afterwards that record is alarmed. No record fires twice, and an already alarmed record does not fire again. A too-early record stays pending, and its alarmed status does not change. A due record fires unless the scan stepped over it. |
| Iteration.StepKeepsInv | gcalert.py:123-149 | One iteration preserves the invariant. Neither list repeats a record, and every alarmed record is pending. |
| Iteration.Step | gcalert.py:119-151 | The add loop followed by the scan loop computes `StepSpec`. The pending list stays duplicate-free, new records are fetched future ones, and records that have not started are retained. The invariant is preserved. Each fired record is pending, was unalarmed, has not started, and is due. |
| Iteration.RunKeepsInv | gcalert.py:117-153 | Every state reached by any sequence of iterations from the empty lists satisfies the invariant. |
| Iteration.AlarmAtMostOnce | gcalert.py:117-153 | Over any run from the empty lists whose clock never goes back, no record is ever handed to the alarm display twice. |
| IntendedScan.IdealScanMeaning | gcalert.py:132-151 | The examine-everything scan keeps exactly the records that have not started. It fires exactly the due records among them that were not alarmed, and it keeps the alarmed bookkeeping exact. |
| IntendedScan.IntendedStepMeaning | gcalert.py:132-151 | With the examine-everything scan, an iteration evicts every started record and alarms every due, unalarmed record. It keeps everything else pending and preserves the invariant. |
| IntendedScan.StartedRecordSurvives | gcalert.py:133-136 | On two records that have both started, the written iteration leaves the second one pending. The intended iteration evicts both. |
| IntendedScan.DueAlarmDelayed | gcalert.py:133-149 | A due record right behind an evicted one gets no alarm from the written iteration. The intended iteration alarms it. |
| Scenarios.StandupTimeline | gcalert.py:117-151 | A meeting with a ten-minute reminder goes through four iterations. It is pending but not alarmed 15 minutes before the start. It is alarmed once 9 minutes before. It is not alarmed again 5 minutes before. It has left both lists 1 minute after the start. |
| Scenarios.FetchDoesNotReplace | gcalert.py:123-131 | With `a` and `b` pending and a fetch of `b` and `c`, the result is `[a, b, c]`. |

## Left out

- Calendar queries (`GetUserCalendars`, `DateRangeQuery`, gcalert.py:48-76) are left out because they are network I/O. The fetched list is an input. The loop has no `try`, so an exception from `DateRangeQuery` at gcalert.py:119 ends the program. The model assumes every fetch returns a list.
- `do_alarm` (gcalert.py:81-90) is left out because it is a desktop notification plus time formatting. Each alarm is modelled as the record being appended to `fired`.
- Login, credentials and `pynotify.init` (gcalert.py:96-114) are left out because they are I/O and process exit.
- `while 1`, `time.sleep` and all `print` logging are left out because they are repetition, delay and output. One iteration is modelled, and `Run` lifts it to finite sequences of iterations.
- Time zones, the hard-coded `+01:00` in `gcal_time_format` and the `strftime('%s')` conversion (gcalert.py:38, 145) are left out as platform time handling. The model assumes one consistent integer clock. The sub-second difference between `nowstring` and `nowunixtime` is folded into that one reading.
- `int(e['minutes'])` (gcalert.py:145) is modelled as a natural number. A malformed or negative reminder value from the feed is not modelled.
- Python's `ValueError` from `list.remove` is left out because it cannot happen. The loop only removes members, and `RemoveFirst` requires membership.
- Threads, locking and reconnect back-off are left out because the code has none.
- The model assumes every `start` string parses with `gcal_time_format`. A start with another offset (such as `+02:00` or `Z`) or an all-day date such as `2009-11-07` makes `time.strptime` raise `ValueError` at gcalert.py:145 (and at :83). The loop has no `try`, so the program stops there. That failure is not modelled.
- Iteration.Step: requires a duplicate-free pending list. The program reaches no other state, as `Iteration.RunKeepsInv` proves. The behaviour on a list with repeats is not described.
- Iteration.AlarmAtMostOnce: assumes the clock never goes back. The add-phase and eviction comparisons use `nowstring` (gcalert.py:120), which is local wall time. Local wall time goes back an hour at every autumn daylight-saving change, and `time.time()` can step backwards when the system clock is adjusted. In either case an evicted record whose start lies ahead again could be re-added and alarmed again.

## Findings

| source | as written | input that shows it | evidently intended | confidence | as-written member | corrected member |
|---|---|---|---|---|---|---|
| gcalert.py:133-136 | `for e in events:` removes `e` from `events` while walking it. The record after each evicted one is therefore not examined in that pass. It is neither evicted nor alarmed until a later iteration. | Pending `[first, second]`, both starting at 0, now = 10: `second` stays pending although it has started. Pending `[first, due]`, where `due` has not started and has reached its alarm instant: no alarm this iteration. | Every pending record is examined in each pass. Every started record is evicted and every due record is alarmed. | high; not executed | IntendedScan.StartedRecordSurvives | IntendedScan.IntendedStepMeaning |

`Iteration.Step` and the run-level theorems use the scan as written, because they describe the program as it runs. The corrected iteration `IntendedScan.IntendedStep` is defined alongside it, with its properties proved.
