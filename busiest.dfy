/** FindBusiestPeriod: the sweep over the sorted start and end events.

    The sweep keeps five variables: the number of drivers currently on break,
    the highest number seen after a start event (`maxDrivers`), a separate
    high-water mark of the number left after an end event
    (`driversLeftAfterBreakEnd`), and the two result times.  The result times
    start at `DateTime.MinValue`, written `Unset` here.
 */
module BusiestPeriod {
  import opened TimeEntry
  import opened Counting
  import opened Events

  /** A result time of the sweep: `Unset` is `DateTime.MinValue`, the initial value. */
  datatype Clock = Unset | At(minute: Minute)

  /** The five variables of the sweep loop. */
  datatype Sweep = Sweep(
    currentDrivers: int,
    maxDrivers: int,
    driversLeftAfterBreakEnd: int,
    startBusiest: Clock,
    endBusiest: Clock)

  /** The busiest period before its times are turned into text. */
  datatype Period = Period(start: Clock, end: Clock, driverCount: int)

  /** What FindBusiestPeriod returns: both times as `HH:MM` text, and the driver count. */
  datatype Report = Report(start: string, end: string, driverCount: int)

  const Initial := Sweep(0, 0, 0, Unset, Unset)

  /** One iteration of the sweep loop for event `e`, in an event list of `count` events. */
  function Step(st: Sweep, e: Event, count: nat): Sweep {
    var current :=
      if StartOrEnd(e.kind) == 0 then st.currentDrivers + 1
      else if StartOrEnd(e.kind) == 1 then st.currentDrivers - 1
      else st.currentDrivers;
    if current > st.maxDrivers && StartOrEnd(e.kind) == 0 then
      st.(currentDrivers := current, maxDrivers := current, startBusiest := At(e.time))
    else if st.driversLeftAfterBreakEnd < current && StartOrEnd(e.kind) == 1 then
      st.(currentDrivers := current, driversLeftAfterBreakEnd := current, endBusiest := At(e.time))
    else if count == 2 && StartOrEnd(e.kind) == 1 then
      st.(currentDrivers := current, endBusiest := At(e.time))
    else
      st.(currentDrivers := current)
  }

  /** The sweep variables after the events `s`, the first events of a list of `count`. */
  function SweepOf(s: seq<Event>, count: nat): Sweep {
    if s == [] then Initial else Step(SweepOf(s[..|s| - 1], count), s[|s| - 1], count)
  }

  /** The busiest period of the entries, as FindBusiestPeriod computes it. */
  function Busiest(entries: seq<Interval>): Period {
    var events := SortEvents(EventsOf(entries));
    var st := SweepOf(events, |events|);
    Period(st.startBusiest, st.endBusiest, st.maxDrivers)
  }

  /** A result time as `HH:MM`; `DateTime.MinValue` shows as `00:00`. */
  function Render(c: Clock): string {
    ClockText(if c.At? then c.minute else 0)
  }

  function RenderPeriod(p: Period): Report {
    Report(Render(p.start), Render(p.end), p.driverCount)
  }

  /** FindBusiestPeriod: build the events, sort them, and sweep. */
  method FindBusiestPeriod(timeEntries: seq<Interval>) returns (r: Report)
    ensures r == RenderPeriod(Busiest(timeEntries))
    ensures 0 <= r.driverCount <= |timeEntries|
    ensures |r.start| == 5 && |r.end| == 5
  {
    var events: seq<Event> := [];
    for i := 0 to |timeEntries|
      invariant events == EventsOf(timeEntries[..i])
    {
      var entry := timeEntries[i];
      assert timeEntries[..i + 1][..i] == timeEntries[..i];
      events := events + [Event(entry.start, Start)];
      events := events + [Event(entry.end, End)];
    }
    assert timeEntries[..|timeEntries|] == timeEntries;

    events := SortEvents(events);
    assert events == SortEvents(EventsOf(timeEntries));

    var maxDrivers, currentDrivers, driversLeftAfterBreakEnd := 0, 0, 0;
    var startBusiest, endBusiest := Unset, Unset;
    for k := 0 to |events|
      invariant Sweep(currentDrivers, maxDrivers, driversLeftAfterBreakEnd, startBusiest, endBusiest)
        == SweepOf(events[..k], |events|)
    {
      var e := events[k];
      assert events[..k + 1][..k] == events[..k];
      if StartOrEnd(e.kind) == 0 {
        currentDrivers := currentDrivers + 1;
      } else if StartOrEnd(e.kind) == 1 {
        currentDrivers := currentDrivers - 1;
      }

      if currentDrivers > maxDrivers && StartOrEnd(e.kind) == 0 {
        maxDrivers := currentDrivers;
        startBusiest := At(e.time);
      } else if driversLeftAfterBreakEnd < currentDrivers && StartOrEnd(e.kind) == 1 {
        driversLeftAfterBreakEnd := currentDrivers;
        endBusiest := At(e.time);
      } else if |events| == 2 && StartOrEnd(e.kind) == 1 {
        endBusiest := At(e.time);
      }
    }
    assert events[..|events|] == events;
    assert SweepOf(events, |events|) == Sweep(currentDrivers, maxDrivers, driversLeftAfterBreakEnd, startBusiest, endBusiest);
    assert Busiest(timeEntries) == Period(startBusiest, endBusiest, maxDrivers);

    r := Report(Render(startBusiest), Render(endBusiest), maxDrivers);
    DriverCountBounds(timeEntries);
  }

  // ---------------------------------------------------------------------
  // Reference quantities: the running count and its high-water marks

  /** The number of drivers on break after the events `s`: starts minus ends. */
  function Running(s: seq<Event>): int {
    Count(s, IsStart) - Count(s, IsEnd)
  }

  function Max(a: int, b: int): int {
    if a < b then b else a
  }

  /** The highest running count over all prefixes of `s`, the empty one included. */
  function Peak(s: seq<Event>): (p: int)
    ensures p >= 0
  {
    if s == [] then 0 else Max(Peak(s[..|s| - 1]), Running(s))
  }

  /** The highest running count over the prefixes of `s` that end with an end event, or 0. */
  function EndPeak(s: seq<Event>): (p: int)
    ensures p >= 0
  {
    if s == [] then 0
    else if IsEnd(s[|s| - 1]) then Max(EndPeak(s[..|s| - 1]), Running(s))
    else EndPeak(s[..|s| - 1])
  }

  /** `j` is the first prefix length after which the running count reaches `Peak(s)`,
      and that prefix ends with a start event. */
  ghost predicate FirstPeakAt(s: seq<Event>, j: int) {
    1 <= j <= |s| && IsStart(s[j - 1]) && Running(s[..j]) == Peak(s) &&
    forall i :: 0 <= i < j ==> Running(s[..i]) < Peak(s)
  }

  /** `j` is the first prefix ending with an end event after which the running count
      reaches `EndPeak(s)`. */
  ghost predicate FirstEndPeakAt(s: seq<Event>, j: int) {
    1 <= j <= |s| && IsEnd(s[j - 1]) && Running(s[..j]) == EndPeak(s) &&
    forall i :: 1 <= i < j && IsEnd(s[i - 1]) ==> Running(s[..i]) < EndPeak(s)
  }

  // ---------------------------------------------------------------------
  // Properties of the reference quantities

  lemma PrefixOfPrefix(s: seq<Event>, i: nat)
    requires s != [] && i <= |s| - 1
    ensures s[..|s| - 1][..i] == s[..i]
  {
  }

  /** `Peak` is the maximum of the running count over all prefixes. */
  lemma {:induction false} PeakIsMaximum(s: seq<Event>)
    ensures forall j :: 0 <= j <= |s| ==> Running(s[..j]) <= Peak(s)
    ensures exists j :: 0 <= j <= |s| && Running(s[..j]) == Peak(s)
  {
    if s == [] {
      assert s[..0] == [];
    } else {
      var p := s[..|s| - 1];
      PeakIsMaximum(p);
      forall j | 0 <= j <= |s|
        ensures Running(s[..j]) <= Peak(s)
      {
        if j < |s| {
          PrefixOfPrefix(s, j);
        } else {
          assert s[..j] == s;
        }
      }
      if Running(s) > Peak(p) {
        assert s[..|s|] == s;
      } else {
        var j :| 0 <= j <= |p| && Running(p[..j]) == Peak(p);
        PrefixOfPrefix(s, j);
      }
    }
  }

  /** `EndPeak` is the maximum of 0 and the running count after each end event. */
  lemma {:induction false} EndPeakIsMaximum(s: seq<Event>)
    ensures forall j :: 1 <= j <= |s| && IsEnd(s[j - 1]) ==> Running(s[..j]) <= EndPeak(s)
    ensures EndPeak(s) == 0 || exists j :: 1 <= j <= |s| && IsEnd(s[j - 1]) && Running(s[..j]) == EndPeak(s)
  {
    if s != [] {
      var p := s[..|s| - 1];
      EndPeakIsMaximum(p);
      forall j | 1 <= j <= |s| && IsEnd(s[j - 1])
        ensures Running(s[..j]) <= EndPeak(s)
      {
        if j < |s| {
          PrefixOfPrefix(s, j);
        } else {
          assert s[..j] == s;
        }
      }
      if IsEnd(s[|s| - 1]) && Running(s) > EndPeak(p) {
        assert s[..|s|] == s;
      } else if EndPeak(p) != 0 {
        var j :| 1 <= j <= |p| && IsEnd(p[j - 1]) && Running(p[..j]) == EndPeak(p);
        PrefixOfPrefix(s, j);
      }
    }
  }

  /** The sweep's counters are the reference quantities: `currentDrivers` is the running
      count, `maxDrivers` its maximum over all prefixes and `driversLeftAfterBreakEnd` its
      maximum after end events. */
  lemma {:induction false} SweepCounts(s: seq<Event>, count: nat)
    ensures SweepOf(s, count).currentDrivers == Running(s)
    ensures SweepOf(s, count).maxDrivers == Peak(s)
    ensures SweepOf(s, count).driversLeftAfterBreakEnd == EndPeak(s)
  {
    if s != [] {
      var p := s[..|s| - 1];
      SweepCounts(p, count);
      PeakIsMaximum(p);
      assert p[..|p|] == p;
    }
  }

  /** Earliest peak: `startBusiest` is the time of the first start event after which the
      running count reaches `maxDrivers`; later prefixes that reach the same count do not
      move it.  With no positive count it keeps its initial value. */
  lemma {:induction false} SweepEarliestPeak(s: seq<Event>, count: nat)
    ensures Peak(s) == 0 ==> SweepOf(s, count).startBusiest == Unset
    ensures Peak(s) > 0 ==> exists j :: FirstPeakAt(s, j) && SweepOf(s, count).startBusiest == At(s[j - 1].time)
  {
    if s != [] {
      var p := s[..|s| - 1];
      var e := s[|s| - 1];
      SweepEarliestPeak(p, count);
      SweepCounts(p, count);
      PeakIsMaximum(p);
      assert p[..|p|] == p;
      if IsStart(e) && Running(s) > Peak(p) {
        assert s[..|s|] == s;
        forall i | 0 <= i < |s|
          ensures Running(s[..i]) < Peak(s)
        {
          PrefixOfPrefix(s, i);
        }
        assert FirstPeakAt(s, |s|);
      } else {
        assert Peak(s) == Peak(p);
        if Peak(p) > 0 {
          var j :| FirstPeakAt(p, j) && SweepOf(p, count).startBusiest == At(p[j - 1].time);
          PrefixOfPrefix(s, j);
          forall i | 0 <= i < j
            ensures Running(s[..i]) < Peak(s)
          {
            PrefixOfPrefix(s, i);
          }
          assert FirstPeakAt(s, j);
        }
      }
    }
  }

  /** End time rule, outside the two-event case: `endBusiest` is the time of the first end
      event after which the running count reaches the end-side high-water mark, and keeps
      its initial value when that mark never rises above 0. */
  lemma {:induction false} SweepEndMark(s: seq<Event>, count: nat)
    requires count != 2
    ensures EndPeak(s) == 0 ==> SweepOf(s, count).endBusiest == Unset
    ensures EndPeak(s) > 0 ==> exists j :: FirstEndPeakAt(s, j) && SweepOf(s, count).endBusiest == At(s[j - 1].time)
  {
    if s != [] {
      var p := s[..|s| - 1];
      var e := s[|s| - 1];
      SweepEndMark(p, count);
      SweepCounts(p, count);
      EndPeakIsMaximum(p);
      assert p[..|p|] == p;
      if IsEnd(e) && Running(s) > EndPeak(p) {
        NewEndPeak(s);
      } else if EndPeak(p) > 0 {
        var j :| FirstEndPeakAt(p, j) && SweepOf(p, count).endBusiest == At(p[j - 1].time);
        SameEndPeak(s, j);
      }
    }
  }

  /** An end event that lifts the count left above every earlier one is the first to
      reach the end-side mark. */
  lemma NewEndPeak(s: seq<Event>)
    requires s != [] && IsEnd(s[|s| - 1]) && Running(s) > EndPeak(s[..|s| - 1])
    ensures FirstEndPeakAt(s, |s|)
  {
    var p := s[..|s| - 1];
    EndPeakIsMaximum(p);
    assert s[..|s|] == s;
    forall i | 1 <= i < |s| && IsEnd(s[i - 1])
      ensures Running(s[..i]) < EndPeak(s)
    {
      PrefixOfPrefix(s, i);
    }
  }

  /** An event that does not lift the end-side mark keeps its first prefix. */
  lemma SameEndPeak(s: seq<Event>, j: int)
    requires s != [] && FirstEndPeakAt(s[..|s| - 1], j)
    requires !(IsEnd(s[|s| - 1]) && Running(s) > EndPeak(s[..|s| - 1]))
    ensures FirstEndPeakAt(s, j)
  {
    var p := s[..|s| - 1];
    assert EndPeak(s) == EndPeak(p);
    PrefixOfPrefix(s, j);
    forall i | 1 <= i < j && IsEnd(s[i - 1])
      ensures Running(s[..i]) < EndPeak(s)
    {
      PrefixOfPrefix(s, i);
    }
  }

  /** Neither high-water mark ever decreases along the sweep. */
  lemma {:induction false} MarksNeverDecrease(s: seq<Event>, j: nat, count: nat)
    requires j <= |s|
    ensures SweepOf(s[..j], count).maxDrivers <= SweepOf(s, count).maxDrivers
    ensures SweepOf(s[..j], count).driversLeftAfterBreakEnd <= SweepOf(s, count).driversLeftAfterBreakEnd
  {
    if j < |s| {
      var p := s[..|s| - 1];
      PrefixOfPrefix(s, j);
      MarksNeverDecrease(p, j, count);
      SweepCounts(p, count);
      SweepCounts(s, count);
    } else {
      assert s[..j] == s;
    }
  }

  // ---------------------------------------------------------------------
  // Properties of the busiest period

  /** The running count of any prefix is at most the number of start events. */
  lemma RunningAtMostStarts(s: seq<Event>, j: nat)
    requires j <= |s|
    ensures Running(s[..j]) <= Count(s, IsStart)
  {
    CountPrefix(s, j, IsStart);
  }

  /** The driver count is between 0 and the number of entries; no entries give the
      initial values. */
  lemma DriverCountBounds(entries: seq<Interval>)
    ensures 0 <= Busiest(entries).driverCount <= |entries|
    ensures entries == [] ==> Busiest(entries) == Period(Unset, Unset, 0)
  {
    var events := SortEvents(EventsOf(entries));
    SweepCounts(events, |events|);
    PeakIsMaximum(events);
    var j :| 0 <= j <= |events| && Running(events[..j]) == Peak(events);
    RunningAtMostStarts(events, j);
    SortEventsSorted(EventsOf(entries));
    CountPermutation(events, EventsOf(entries), IsStart);
    EventsOfCounts(entries);
  }

  /** The busiest period depends only on the multiset of entries, not on their order. */
  lemma OrderIndependent(xs: seq<Interval>, ys: seq<Interval>)
    requires multiset(xs) == multiset(ys)
    ensures Busiest(xs) == Busiest(ys)
  {
    EventsPermutation(xs, ys);
    SortEventsSorted(EventsOf(xs));
    SortEventsSorted(EventsOf(ys));
    SortedUnique(SortEvents(EventsOf(xs)), SortEvents(EventsOf(ys)));
    assert |xs| == |multiset(xs)| == |ys|;
  }

  /** One entry: its own start and end when it ends after it starts (the two-event case
      sets the end); an entry that ends before it starts gives no driver and leaves the
      start at its initial value. */
  lemma SingleEntry(iv: Interval)
    ensures Busiest([iv]) == if iv.end < iv.start then Period(Unset, At(iv.end), 0)
                             else Period(At(iv.start), At(iv.end), 1)
  {
    assert [iv][..0] == [];
    assert EventsOf([iv]) == Pair(iv);
    var a, b := Event(iv.start, Start), Event(iv.end, End);
    assert [a, b][1..] == [b] && [b][1..] == [];
    var sorted := SortEvents([a, b]);
    assert SortEvents([b]) == Insert(b, []) == [b];
    assert Insert(a, [b]) == if NoLater(a, b) then [a, b] else [b] + Insert(a, []);
    assert sorted == if NoLater(a, b) then [a, b] else [b, a];
    var first := Step(Initial, sorted[0], 2);
    assert SweepOf(sorted[..1], 2) == first by { assert sorted[..1][..0] == []; }
    assert SweepOf(sorted, 2) == Step(first, sorted[1], 2) by { assert sorted[..|sorted| - 1] == sorted[..1]; }
  }
}
