# App Tracker usage accounting, in Dafny

This project models the usage-accounting loop of the App Tracker (`AppTrackerGUI.track_usage`
in `LockIn/src/gui.py`) and proves what its commit-on-transition rule guarantees.

The loop samples the title of the foreground window about once a second. It keeps the title
that was active at the last transition (`active_window`, `None` before the first sample), the
moment that window came to the front (`start_time`), and the dictionary `usage_data` from title
to whole seconds. When the sampled title differs from `active_window`, the loop credits the
previous title with `int(now - start_time)` seconds, creating its entry when it has none. It
does so only if the previous title is truthy in Python, so `None` and the empty title are never
credited. On every change it then resets `active_window` and `start_time`.

Files:

- `usage.dfy`, module `Usage`: the state as a value (`TrackState`), one pass of the loop
  (`Next`), a run over a finite sequence of samples (`RunFrom`), the truncation `Elapsed`, the
  dictionary update `Commit`, and the sum of the entries `Total`.
- `tracker.dfy`, module `Tracking`: class `Tracker` with the fields `active`, `start` and
  `usage`, updated in place by `Step` (one pass of the loop body) and `Run` (the loop over
  samples). Both are proved against `Next` and `RunFrom`.
- `properties.dfy`, module `UsageProperties`: lemmas about one sample and about runs.

Time is an integer number of milliseconds. `int(duration)` becomes `Elapsed(start, now)`. It
truncates toward zero as Python's `int` does on a float, so a clock that jumps backwards gives
a zero or negative commit, as in the source. `Step` therefore has no precondition. The
properties that need a clock that does not go backwards take that as a hypothesis
(`Chronological`).

The tracking loop never ends, so the time of the window in front when the program exits is
never committed. The code does not split titles into (application, context), has no include or
exclude filters, and does not persist or export anything. The empty title does not take part in
accounting: Python truthiness drops it at `LockIn/src/gui.py:46`.

## Model

| member | source | states |
|---|---|---|
| `Usage.Elapsed` | LockIn/src/gui.py:47-51 | `int(duration)` in whole seconds, truncated toward zero: for a non-negative duration `d`, the result `r` satisfies `1000*r <= d < 1000*(r+1)`; for a negative one, the mirror bound holds and `r <= 0` |
| `Usage.Commit` | LockIn/src/gui.py:48-51 | adding seconds to an entry: the key set gains exactly the key, its entry becomes the old entry (0 when absent) plus the seconds, and every other entry is unchanged |
| `Tracking.Tracker.constructor` | LockIn/src/gui.py:40-41 | the tracker starts with an empty dictionary (`usage_data`, created at line 20), no active window, and the clock read once |
| `Tracking.Tracker.Step` | LockIn/src/gui.py:44-57 | one pass of the loop body updates the fields in place exactly as the rule `Next` says |
| `Tracking.Tracker.Run` | LockIn/src/gui.py:43-59 | the loop over a finite sequence of samples leaves the tracker in the state `RunFrom` gives for those samples, in order |
| `UsageProperties.FirstSampleRecordsNothing` | LockIn/src/gui.py:40-57 | with no active window (the first sample), the dictionary is unchanged; only the active title and its start are set |
| `UsageProperties.SameTitleChangesNothing` | LockIn/src/gui.py:45 | a sample whose title equals the active title changes nothing: not the dictionary, not the active title, not the start |
| `UsageProperties.TransitionCommitsPrevious` | LockIn/src/gui.py:45-57 | on a change away from a non-empty title, the key set gains only that title, its entry grows by exactly the truncated elapsed time, an absent entry is created equal to it, no other entry changes, and the new title and time become active |
| `UsageProperties.EmptyTitleDiscarded` | LockIn/src/gui.py:45-57 | leaving the empty title records nothing and resets the start to the moment of the change, so the time spent on it goes to no title; sampling it again changes nothing |
| `UsageProperties.StepKeys` | LockIn/src/gui.py:46-51 | one sample removes no key, adds at most one, and any added key is the previous active title and is not empty; the empty title never becomes a key |
| `UsageProperties.StepTotal` | LockIn/src/gui.py:45-51 | the sum of the entries grows by exactly the previous window's pending truncated time on a change, and stays the same otherwise |
| `UsageProperties.StepMonotone` | LockIn/src/gui.py:47-57 | if the clock did not go backwards, no entry shrinks or disappears, non-negative entries stay non-negative, and the start moves forward to at most `now` |
| `UsageProperties.RunCompose` | LockIn/src/gui.py:43-59 | running two sequences of samples one after the other is the same as running their concatenation |
| `UsageProperties.RunStartWithin` | LockIn/src/gui.py:43-57 | with a clock that does not go backwards, the start after a run lies between the initial start and the last sample's time |
| `UsageProperties.RunMonotone` | LockIn/src/gui.py:47-51 | with a clock that does not go backwards, entries never shrink or disappear over a run, and non-negative entries stay non-negative |
| `UsageProperties.RunActive` | LockIn/src/gui.py:44-56 | every sample makes its title the active one: after a non-empty run the active title is exactly the last sample's title, an empty run changes nothing, and the active title is always the initial one or a sampled title |
| `UsageProperties.RunKeys` | LockIn/src/gui.py:46-56 | over a run no key is removed, the key set grows by at most one per sample, every new key is a non-empty title that was active, and the empty title never becomes a key |
| `UsageProperties.RunWithoutTransition` | LockIn/src/gui.py:45-57 | commit on transition only: while the active title keeps being sampled, nothing is recorded, however much time passes |
| `UsageProperties.RunTotalBound` | LockIn/src/gui.py:47-57 | with a clock that does not go backwards, each commit is at most the milliseconds it covers, so a bound "sum of entries, in milliseconds, is at most the time from an origin to the latest transition" is kept by every run |
| `UsageProperties.UsageWithinTrackedTime` | LockIn/src/gui.py:40-57 | from a fresh tracker and with sample times that never go backwards, the sum of the entries is at most the whole seconds from the first sample to the latest transition, which lies between the first and last sample; truncating each commit separately can only lose time |
| `UsageProperties.FourSampleScenario` | LockIn/src/gui.py:43-59 | samples "Chrome - GitHub", "Chrome - GitHub", "Notepad", "Chrome - GitHub" one second apart credit two seconds to the first title and one to "Notepad"; the last second is still pending |

## Left out

- `get_active_window` (`LockIn/src/gui.py:26-28`) calls the operating system through `win32gui`. The title is an input of each sample instead.
- `time.time()` and `time.sleep(1)` (`LockIn/src/gui.py:41,47,57,59`): the clock is a caller-supplied integer millisecond timestamp, and no cadence is modelled. Sub-millisecond fractions of the float clock are not represented.
- The loop reads the clock twice per change (`LockIn/src/gui.py:47` and `:57`). The model uses one reading for both. In the source, the time between the two readings, including the Treeview refresh, is credited to no window, and that only strengthens the bound on the sum.
- The infinite `while True` loop is modelled as a loop over a finite sequence of samples.
- The loop has no `try/except`: an exception from `get_active_window` (`LockIn/src/gui.py:44`) or `update_treeview` (`:54`) ends the tracking thread, leaving `usage_data` as of the last completed commit. In the model this is a `Run` over the samples taken before the failure.
- The tracking thread (`LockIn/src/gui.py:23-24`) and the Tk side reading `usage_data` without synchronisation are concurrency and are not modelled.
- The Treeview construction and `update_treeview` (`LockIn/src/gui.py:8-17,30-37,54,61-64`) are user interface only. A Dafny `map` has no order, so the insertion order of `usage_data`, which `update_treeview` (`:36`) uses for the order of its rows, is not modelled.
- `LockIn/src/main.py` and `LockIn/main.py` repeat the transition rule, but only print the duration and keep no accumulated state. The `try/except` in `LockIn/src/main.py` wraps the whole transition step (lines 16-22), so an exception from the operating-system call or from the `print` is reported and the loop goes on.
- Title classification into (application, context), include and exclude filters, stop-time flushing, incremental logs and CSV, JSON or XML export do not exist in the modelled code and are not part of this model.
