/**
 The App Tracker's tracking loop as an object whose fields it updates in place:
 `active_window` and `start_time` (locals of the loop) and the `usage_data` dictionary.
 Each method is proved against the pure rule of module Usage.
 */
module Tracking {
  import opened Usage

  class Tracker {
    var active: Option<string>
    var start: int
    var usage: map<string, int>

    /** The abstract value of the tracker. */
    function State(): TrackState
      reads this
    {
      TrackState(active, start, usage)
    }

    /** An empty dictionary, no active window, and the clock read once at `t0`. */
    constructor (t0: int)
      ensures State() == Initial(t0)
    {
      active := None;
      start := t0;
      usage := map[];
    }

    /** One pass of the loop body: the window `title` is in front at `now`. */
    method Step(title: string, now: int)
      modifies this
      ensures State() == Next(old(State()), title, now)
    {
      if active != Some(title) {
        if active.Some? && active.value != "" {
          var duration := Elapsed(start, now);
          if active.value in usage {
            usage := usage[active.value := usage[active.value] + duration];
          } else {
            usage := usage[active.value := duration];
          }
        }
        active := Some(title);
        start := now;
      }
    }

    /** The loop over a finite sequence of samples, in order. */
    method Run(samples: seq<Sample>)
      modifies this
      ensures State() == RunFrom(old(State()), samples)
    {
      var i := 0;
      while i < |samples|
        invariant 0 <= i <= |samples|
        invariant State() == RunFrom(old(State()), samples[..i])
      {
        assert samples[..i + 1][..i] == samples[..i];
        Step(samples[i].title, samples[i].time);
        i := i + 1;
      }
      assert samples[..i] == samples;
    }
  }
}
