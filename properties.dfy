/**
 What the commit-on-transition rule guarantees, for one sample and for a run of samples.
 */
module UsageProperties {
  import opened Usage

  // ---------------------------------------------------------------------------
  // The sum of the entries

  lemma {:induction false} TotalRemove(usage: map<string, int>, key: string)
    requires key in usage
    ensures Total(usage) == usage[key] + Total(usage - {key})
    decreases |usage|
  {
    var k :| k in usage && Total(usage) == usage[k] + Total(usage - {k});
    if k != key {
      var rest := usage - {k};
      assert (usage - {k}).Keys == usage.Keys - {k};
      assert (usage - {key}).Keys == usage.Keys - {key};
      TotalRemove(rest, key);
      TotalRemove(usage - {key}, k);
      assert rest - {key} == (usage - {key}) - {k};
    }
  }

  /** Setting the entry of `key` to `v` changes the sum by the difference. */
  lemma TotalUpdate(usage: map<string, int>, key: string, v: int)
    ensures Total(usage[key := v]) == Total(usage) - Lookup(usage, key) + v
  {
    TotalRemove(usage[key := v], key);
    assert usage[key := v] - {key} == usage - {key};
    if key in usage {
      TotalRemove(usage, key);
    } else {
      assert usage - {key} == usage;
    }
  }

  // ---------------------------------------------------------------------------
  // One sample

  /** The first sample records nothing; it only sets the active window and its start. */
  lemma FirstSampleRecordsNothing(s: TrackState, title: string, now: int)
    requires s.active == None
    ensures Next(s, title, now) == TrackState(Some(title), now, s.usage)
  {
  }

  /** A sample with the title already active changes nothing at all. */
  lemma SameTitleChangesNothing(s: TrackState, title: string, now: int)
    requires s.active == Some(title)
    ensures Next(s, title, now) == s
  {
  }

  /** On a change away from a non-empty title, only that title's entry changes, and it grows
      by exactly the truncated elapsed time; an absent entry is created with that value. */
  lemma TransitionCommitsPrevious(s: TrackState, title: string, now: int)
    requires Truthy(s.active) && s.active != Some(title)
    ensures var r := Next(s, title, now);
      && r.active == Some(title) && r.start == now
      && r.usage.Keys == s.usage.Keys + {s.active.value}
      && r.usage[s.active.value] == Lookup(s.usage, s.active.value) + Elapsed(s.start, now)
      && (s.active.value !in s.usage ==> r.usage[s.active.value] == Elapsed(s.start, now))
      && forall k :: k in s.usage && k != s.active.value ==> r.usage[k] == s.usage[k]
  {
  }

  /** Time spent on the empty title is dropped: leaving it records nothing, and the start is
      reset to `now`, so that time is not credited to the next title either. */
  lemma EmptyTitleDiscarded(s: TrackState, title: string, now: int)
    requires s.active == Some("")
    ensures Next(s, title, now) == if title == "" then s else TrackState(Some(title), now, s.usage)
  {
  }

  /** No key is removed, at most one is added, it is the previous active title,
      and it is never the empty title. */
  lemma StepKeys(s: TrackState, title: string, now: int)
    ensures var r := Next(s, title, now);
      && s.usage.Keys <= r.usage.Keys
      && (forall k :: k in r.usage && k !in s.usage ==> s.active == Some(k) && k != "")
      && |r.usage.Keys| <= |s.usage.Keys| + 1
      && ("" !in s.usage ==> "" !in r.usage)
  {
    var r := Next(s, title, now);
    if r.usage.Keys != s.usage.Keys {
      assert r.usage.Keys == s.usage.Keys + {s.active.value};
      assert |s.usage.Keys + {s.active.value}| <= |s.usage.Keys| + |{s.active.value}|;
    }
  }

  /** The sum of the entries grows by exactly the pending time of the previous window
      on a change, and not at all otherwise. */
  lemma StepTotal(s: TrackState, title: string, now: int)
    ensures Total(Next(s, title, now).usage)
         == Total(s.usage) + (if s.active == Some(title) then 0 else Pending(s, now))
  {
    if s.active != Some(title) && Truthy(s.active) {
      var p := s.active.value;
      var d := Elapsed(s.start, now);
      TotalUpdate(s.usage, p, Lookup(s.usage, p) + d);
      assert Commit(s.usage, p, d) == s.usage[p := Lookup(s.usage, p) + d];
    }
  }

  /** With a clock that does not go backwards, entries only grow and stay non-negative,
      and the start of the active window moves forward to at most `now`. */
  lemma StepMonotone(s: TrackState, title: string, now: int)
    requires s.start <= now
    ensures var r := Next(s, title, now);
      && (forall k :: k in s.usage ==> k in r.usage && s.usage[k] <= r.usage[k])
      && (NonNegative(s.usage) ==> NonNegative(r.usage))
      && s.start <= r.start <= now
  {
  }

  // ---------------------------------------------------------------------------
  // A run of samples

  /** Running two sequences of samples one after the other is running their concatenation. */
  lemma {:induction false} RunCompose(s: TrackState, a: seq<Sample>, b: seq<Sample>)
    ensures RunFrom(s, a + b) == RunFrom(RunFrom(s, a), b)
    decreases |b|
  {
    if b == [] {
      assert a + b == a;
    } else {
      var n := |b| - 1;
      assert (a + b)[..|a + b| - 1] == a + b[..n];
      assert (a + b)[|a + b| - 1] == b[n];
      RunCompose(s, a, b[..n]);
    }
  }

  /** A prefix of a chronological run is chronological. */
  lemma ChronologicalPrefix(t0: int, samples: seq<Sample>, n: nat)
    requires Chronological(t0, samples) && n <= |samples|
    ensures Chronological(t0, samples[..n])
  {
    forall i | 0 <= i < n
      ensures PrevTime(t0, samples[..n], i) <= samples[..n][i].time
    {
      assert PrevTime(t0, samples[..n], i) == PrevTime(t0, samples, i);
    }
  }

  /** The start of the active window lies between the initial start and the last sample. */
  lemma {:induction false} RunStartWithin(s: TrackState, samples: seq<Sample>)
    requires Chronological(s.start, samples)
    ensures s.start <= RunFrom(s, samples).start <= LastTime(s.start, samples)
    decreases |samples|
  {
    if samples != [] {
      var n := |samples| - 1;
      ChronologicalPrefix(s.start, samples, n);
      RunStartWithin(s, samples[..n]);
      assert LastTime(s.start, samples[..n]) == PrevTime(s.start, samples, n);
    }
  }

  /** With a clock that does not go backwards, no entry is removed or shrinks over a run,
      and non-negative entries stay non-negative. */
  lemma {:induction false} RunMonotone(s: TrackState, samples: seq<Sample>)
    requires Chronological(s.start, samples)
    ensures var r := RunFrom(s, samples);
      && (forall k :: k in s.usage ==> k in r.usage && s.usage[k] <= r.usage[k])
      && (NonNegative(s.usage) ==> NonNegative(r.usage))
    decreases |samples|
  {
    if samples != [] {
      var n := |samples| - 1;
      var mid := RunFrom(s, samples[..n]);
      ChronologicalPrefix(s.start, samples, n);
      RunMonotone(s, samples[..n]);
      RunStartWithin(s, samples[..n]);
      assert LastTime(s.start, samples[..n]) == PrevTime(s.start, samples, n);
      StepMonotone(mid, samples[n].title, samples[n].time);
    }
  }

  /** Every sample makes its title the active one: after a run the active window is the last
      sample's title, or the initial one when there are no samples. */
  lemma {:induction false} RunActive(s: TrackState, samples: seq<Sample>)
    ensures samples == [] ==> RunFrom(s, samples) == s
    ensures samples != [] ==> RunFrom(s, samples).active == Some(samples[|samples| - 1].title)
    ensures var r := RunFrom(s, samples);
      r.active == s.active || (r.active.Some? && r.active.value in Titles(samples))
    decreases |samples|
  {
    if samples != [] {
      var n := |samples| - 1;
      RunActive(s, samples[..n]);
      assert samples[n] in samples;
      assert Titles(samples[..n]) <= Titles(samples);
    }
  }

  /** Over a run, no key is removed; every new key is a title that was active (initially or
      as a sample) and is not the empty title; the key set grows by at most one per sample. */
  lemma {:induction false} RunKeys(s: TrackState, samples: seq<Sample>)
    ensures var r := RunFrom(s, samples);
      && s.usage.Keys <= r.usage.Keys
      && (forall k :: k in r.usage && k !in s.usage ==>
            k != "" && (s.active == Some(k) || k in Titles(samples)))
      && |r.usage.Keys| <= |s.usage.Keys| + |samples|
      && ("" !in s.usage ==> "" !in r.usage)
    decreases |samples|
  {
    if samples != [] {
      var n := |samples| - 1;
      var mid := RunFrom(s, samples[..n]);
      RunKeys(s, samples[..n]);
      RunActive(s, samples[..n]);
      StepKeys(mid, samples[n].title, samples[n].time);
      assert Titles(samples[..n]) <= Titles(samples);
    }
  }

  /** Commit on transition only: while the active title keeps being sampled, nothing is
      recorded for it, however long it stays in front. */
  lemma {:induction false} RunWithoutTransition(s: TrackState, samples: seq<Sample>)
    requires s.active.Some?
    requires forall i :: 0 <= i < |samples| ==> samples[i].title == s.active.value
    ensures RunFrom(s, samples) == s
    decreases |samples|
  {
    if samples != [] {
      var n := |samples| - 1;
      RunWithoutTransition(s, samples[..n]);
    }
  }

  /** Each commit is at most the milliseconds it covers, so the sum of the entries, in
      milliseconds, never exceeds the time from `origin` to the latest transition. */
  lemma {:induction false} RunTotalBound(s: TrackState, samples: seq<Sample>, origin: int)
    requires Chronological(s.start, samples)
    requires Total(s.usage) * 1000 <= s.start - origin
    ensures var r := RunFrom(s, samples); Total(r.usage) * 1000 <= r.start - origin
    decreases |samples|
  {
    if samples != [] {
      var n := |samples| - 1;
      var mid := RunFrom(s, samples[..n]);
      ChronologicalPrefix(s.start, samples, n);
      RunTotalBound(s, samples[..n], origin);
      RunStartWithin(s, samples[..n]);
      assert LastTime(s.start, samples[..n]) == PrevTime(s.start, samples, n);
      StepTotal(mid, samples[n].title, samples[n].time);
    }
  }

  /** From a fresh start, with sample times that never go backwards, the whole seconds recorded
      never exceed the whole seconds from the first sample to the latest transition, which is no
      later than the last sample. Whatever `t0` is, the first sample discards it. */
  lemma UsageWithinTrackedTime(t0: int, samples: seq<Sample>)
    requires samples != [] && Chronological(samples[0].time, samples)
    ensures var r := RunFrom(Initial(t0), samples);
      && samples[0].time <= r.start <= samples[|samples| - 1].time
      && Total(r.usage) <= (r.start - samples[0].time) / 1000
  {
    var first := samples[0];
    var rest := samples[1..];
    var s1 := Next(Initial(t0), first.title, first.time);
    assert samples == [first] + rest;
    RunCompose(Initial(t0), [first], rest);
    assert RunFrom(Initial(t0), [first]) == s1 by {
      assert [first][..0] == [];
    }
    assert Chronological(s1.start, rest) by {
      forall i | 0 <= i < |rest| ensures PrevTime(s1.start, rest, i) <= rest[i].time {
        assert PrevTime(s1.start, rest, i) == PrevTime(samples[0].time, samples, i + 1);
      }
    }
    assert Total(s1.usage) == 0;
    RunTotalBound(s1, rest, first.time);
    RunStartWithin(s1, rest);
    var r := RunFrom(s1, rest);
    assert LastTime(s1.start, rest) == samples[|samples| - 1].time;
    var span := r.start - first.time;
    assert Total(r.usage) * 1000 <= span;
    assert span == span / 1000 * 1000 + span % 1000;
  }

  // ---------------------------------------------------------------------------
  // A worked example

  /** One title twice, another once, then the first again, one second apart: the first title
      is credited its two seconds, the second its one, and the last second is still pending. */
  lemma FourSampleScenario()
    ensures var r := RunFrom(Initial(0), [Sample("Chrome - GitHub", 0), Sample("Chrome - GitHub", 1000),
                                          Sample("Notepad", 2000), Sample("Chrome - GitHub", 3000)]);
      && r.usage == map["Chrome - GitHub" := 2, "Notepad" := 1]
      && r.active == Some("Chrome - GitHub") && r.start == 3000
  {
    var a := [Sample("Chrome - GitHub", 0), Sample("Chrome - GitHub", 1000),
              Sample("Notepad", 2000), Sample("Chrome - GitHub", 3000)];
    var s0 := Initial(0);
    var s1 := RunFrom(s0, a[..1]);
    assert a[..1][..0] == [] && a[..1][0] == a[0];
    assert RunFrom(s0, a[..1][..0]) == s0;
    assert s1 == Next(s0, a[0].title, a[0].time);
    assert a[..2][..1] == a[..1];
    var s2 := RunFrom(s0, a[..2]);
    assert s2 == Next(s1, a[1].title, a[1].time) == s1;
    assert a[..3][..2] == a[..2];
    var s3 := RunFrom(s0, a[..3]);
    assert s3 == Next(s2, a[2].title, a[2].time);
    assert a[..|a| - 1] == a[..3];
    assert RunFrom(s0, a) == Next(s3, a[3].title, a[3].time);
  }
}
