/**
 The usage-accounting rule of the App Tracker's tracking loop, as pure functions.

 The loop keeps three pieces of state: the title of the window that was active
 at the last transition (none before the first sample), the moment that window
 became active, and a dictionary from window title to whole seconds. A sample is
 a window title observed at a moment; time is an integer count of milliseconds.
 */
module Usage {

  datatype Option<T> = None | Some(value: T)

  /** One observation of the foreground window: its title and the clock reading. */
  datatype Sample = Sample(title: string, time: int)

  /** The loop's state: `active_window`, `start_time` and `usage_data`. */
  datatype TrackState = TrackState(active: Option<string>, start: int, usage: map<string, int>)

  /** The state before the first sample: no active window, the clock read once, no entries. */
  function Initial(t0: int): TrackState
  {
    TrackState(None, t0, map[])
  }

  /** Python truthiness of `active_window`: `None` and the empty title are false. */
  predicate Truthy(active: Option<string>)
  {
    active.Some? && active.value != ""
  }

  /** `int(duration)` for a duration of `now - start` milliseconds, in whole seconds:
      the fraction is cut off toward zero, as Python's `int` does on a float. */
  function Elapsed(start: int, now: int): (r: int)
    ensures start <= now ==> 0 <= r && r * 1000 <= now - start < (r + 1) * 1000
    ensures now < start ==> r <= 0 && (r - 1) * 1000 < now - start <= r * 1000
  {
    if start <= now then (now - start) / 1000 else -((start - now) / 1000)
  }

  /** The entry of `key`, or 0 when `key` has none. */
  function Lookup(usage: map<string, int>, key: string): int
  {
    if key in usage then usage[key] else 0
  }

  /** Adds `secs` to the entry of `key`, creating the entry when it is absent. */
  function Commit(usage: map<string, int>, key: string, secs: int): (r: map<string, int>)
    ensures r.Keys == usage.Keys + {key}
    ensures r[key] == Lookup(usage, key) + secs
    ensures forall k :: k in usage && k != key ==> r[k] == usage[k]
  {
    if key in usage then usage[key := usage[key] + secs] else usage[key := secs]
  }

  /** One pass of the loop body: the window `title` is observed at `now`. */
  function Next(s: TrackState, title: string, now: int): TrackState
  {
    if s.active == Some(title) then s
    else
      var usage := if Truthy(s.active) then Commit(s.usage, s.active.value, Elapsed(s.start, now))
                   else s.usage;
      TrackState(Some(title), now, usage)
  }

  /** The loop run over a finite sequence of samples, oldest first. */
  function RunFrom(s: TrackState, samples: seq<Sample>): TrackState
    decreases |samples|
  {
    if samples == [] then s
    else
      var last := samples[|samples| - 1];
      Next(RunFrom(s, samples[..|samples| - 1]), last.title, last.time)
  }

  /** Seconds the active window has accrued at `now` that are not yet in `usage`. */
  function Pending(s: TrackState, now: int): int
  {
    if Truthy(s.active) then Elapsed(s.start, now) else 0
  }

  /** The clock reading that precedes sample `i`: `t0` for the first one. */
  function PrevTime(t0: int, samples: seq<Sample>, i: nat): int
    requires i < |samples|
  {
    if i == 0 then t0 else samples[i - 1].time
  }

  /** The clock reading of the last sample, or `t0` when there is none. */
  function LastTime(t0: int, samples: seq<Sample>): int
  {
    if samples == [] then t0 else samples[|samples| - 1].time
  }

  /** The clock never goes backwards: from `t0` on, each sample is no earlier than the one before. */
  ghost predicate Chronological(t0: int, samples: seq<Sample>)
  {
    forall i :: 0 <= i < |samples| ==> PrevTime(t0, samples, i) <= samples[i].time
  }

  /** Every entry is non-negative. */
  ghost predicate NonNegative(usage: map<string, int>)
  {
    forall k :: k in usage ==> usage[k] >= 0
  }

  /** The titles of the samples. */
  function Titles(samples: seq<Sample>): set<string>
  {
    set x | x in samples :: x.title
  }

  /** The sum of all entries. */
  ghost function Total(usage: map<string, int>): int
    decreases |usage|
  {
    if usage == map[] then 0
    else
      var k :| k in usage;
      assert |usage - {k}| < |usage| by { assert (usage - {k}).Keys == usage.Keys - {k}; }
      usage[k] + Total(usage - {k})
  }
}
