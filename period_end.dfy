/** The end time of the busiest period.

    As written, FindBusiestPeriod sets `endBusiest` only when the count left after
    an end event exceeds every earlier such count (or in the one-entry case).  When
    the busiest period has a single driver, the count left after its end event is 0,
    which never exceeds the initial 0, so with two or more entries the end time keeps
    its initial value and is shown as `00:00`.  The corrected sweep records the end
    time at the first end event after the count reaches a new maximum; for every
    list of breaks that end after they start, it reports a period whose every
    minute has the reported number of drivers on break.
 */
module PeriodEnd {
  import opened TimeEntry
  import opened Counting
  import opened Events
  import opened BusiestPeriod
  import opened Overlap

  // ---------------------------------------------------------------------
  // The end time as written

  /** With two or more breaks and a busiest period of one driver, the end time is never
      set. */
  lemma EndLostWithOneDriver(entries: seq<Interval>)
    requires |entries| >= 2
    requires Busiest(entries).driverCount == 1
    ensures Busiest(entries).end == Unset
  {
    var s := SortEvents(EventsOf(entries));
    SortEventsSorted(EventsOf(entries));
    assert |s| == |multiset(s)| == |EventsOf(entries)|;
    SweepCounts(s, |s|);
    PeakIsMaximum(s);
    EndPeakIsMaximum(s);
    forall j | 1 <= j <= |s| && IsEnd(s[j - 1])
      ensures Running(s[..j]) <= 0
    {
      RunningAfterEnd(s, j);
    }
    SweepEndMark(s, |s|);
  }

  /** Two breaks that do not overlap: the end time is lost, and the report reads
      `08:00-00:00` with one driver. */
  lemma DisjointBreaksLoseEnd()
    ensures Busiest([Interval(480, 495), Interval(540, 555)]) == Period(At(480), Unset, 1)
    ensures RenderPeriod(Busiest([Interval(480, 495), Interval(540, 555)])) == Report("08:00", "00:00", 1)
  {
    DisjointEvents();
    var s := [Event(480, Start), Event(495, End), Event(540, Start), Event(555, End)];
    var st1 := Step(Initial, s[0], 4);
    var st2 := Step(st1, s[1], 4);
    var st3 := Step(st2, s[2], 4);
    assert SweepOf(s[..1], 4) == st1 by { assert s[..1][..0] == []; }
    assert SweepOf(s[..2], 4) == st2 by { assert s[..2][..1] == s[..1]; }
    assert SweepOf(s[..3], 4) == st3 by { assert s[..3][..2] == s[..2]; }
    assert SweepOf(s, 4) == Step(st3, s[3], 4) by { assert s[..3] == s[..|s| - 1]; }
    assert Render(At(480)) == "08:00" && Render(Unset) == "00:00";
  }

  lemma DisjointEvents()
    ensures SortEvents(EventsOf([Interval(480, 495), Interval(540, 555)]))
      == [Event(480, Start), Event(495, End), Event(540, Start), Event(555, End)]
  {
    var entries := [Interval(480, 495), Interval(540, 555)];
    var a, b, c, d := Event(480, Start), Event(495, End), Event(540, Start), Event(555, End);
    assert entries[..1] == [Interval(480, 495)] && entries[..1][..0] == [];
    assert EventsOf(entries) == [a, b, c, d];
    assert [a, b, c, d][1..] == [b, c, d] && [b, c, d][1..] == [c, d] && [c, d][1..] == [d] && [d][1..] == [];
    assert SortEvents([d]) == [d];
    assert SortEvents([c, d]) == Insert(c, [d]) == [c, d];
    assert SortEvents([b, c, d]) == Insert(b, [c, d]) == [b, c, d];
    assert SortEvents([a, b, c, d]) == Insert(a, [b, c, d]) == [a, b, c, d];
  }

  // ---------------------------------------------------------------------
  // The corrected sweep

  /** The corrected sweep's variables: `atPeak` is set when the count reaches a new
      maximum, and the next end event records the end time and clears it. */
  datatype Marks = Marks(
    currentDrivers: int,
    maxDrivers: int,
    atPeak: bool,
    startBusiest: Clock,
    endBusiest: Clock)

  const Unmarked := Marks(0, 0, false, Unset, Unset)

  function CorrectedStep(st: Marks, e: Event): Marks {
    var current := if IsStart(e) then st.currentDrivers + 1 else st.currentDrivers - 1;
    if current > st.maxDrivers && IsStart(e) then
      st.(currentDrivers := current, maxDrivers := current, atPeak := true, startBusiest := At(e.time))
    else if IsEnd(e) && st.atPeak then
      st.(currentDrivers := current, atPeak := false, endBusiest := At(e.time))
    else
      st.(currentDrivers := current)
  }

  function CorrectedSweepOf(s: seq<Event>): Marks {
    if s == [] then Unmarked else CorrectedStep(CorrectedSweepOf(s[..|s| - 1]), s[|s| - 1])
  }

  /** The busiest period with the corrected end time. */
  function CorrectedBusiest(entries: seq<Interval>): Period {
    var st := CorrectedSweepOf(SortEvents(EventsOf(entries)));
    Period(st.startBusiest, st.endBusiest, st.maxDrivers)
  }

  // ---------------------------------------------------------------------
  // Properties of the corrected sweep

  /** After an end event the count is the count before it, less one. */
  lemma RunningAfterEnd(s: seq<Event>, j: nat)
    requires 1 <= j <= |s| && IsEnd(s[j - 1])
    ensures Running(s[..j]) == Running(s[..j - 1]) - 1
  {
    assert s[..j][..j - 1] == s[..j - 1];
  }

  /** The corrected sweep keeps the same count and maximum as the program. */
  lemma {:induction false} CorrectedCounts(s: seq<Event>)
    ensures CorrectedSweepOf(s).currentDrivers == Running(s)
    ensures CorrectedSweepOf(s).maxDrivers == Peak(s)
  {
    if s != [] {
      var p := s[..|s| - 1];
      CorrectedCounts(p);
      PeakIsMaximum(p);
      assert p[..|p|] == p;
    }
  }

  /** `st` starts the period at the first peak `j` of `s`; if an event follows the
      peak, it is an end event and `st` ends the period there, otherwise `st` waits for
      one. */
  ghost predicate PeakMarked(s: seq<Event>, j: int, st: Marks) {
    FirstPeakAt(s, j) && st.startBusiest == At(s[j - 1].time) &&
    (j == |s| ==> st.atPeak) &&
    (j < |s| ==> !st.atPeak && IsEnd(s[j]) && st.endBusiest == At(s[j].time))
  }

  /** A start event that lifts the count above every earlier count is the first peak. */
  lemma NewPeak(s: seq<Event>)
    requires s != [] && IsStart(s[|s| - 1]) && Running(s) > Peak(s[..|s| - 1])
    ensures FirstPeakAt(s, |s|)
  {
    var p := s[..|s| - 1];
    PeakIsMaximum(p);
    assert s[..|s|] == s;
    forall i | 0 <= i < |s|
      ensures Running(s[..i]) < Peak(s)
    {
      PrefixOfPrefix(s, i);
    }
  }

  /** An event that does not lift the count above the peak keeps the first peak. */
  lemma SamePeak(s: seq<Event>, j: int)
    requires s != [] && FirstPeakAt(s[..|s| - 1], j)
    requires Peak(s) == Peak(s[..|s| - 1])
    ensures FirstPeakAt(s, j)
  {
    var p := s[..|s| - 1];
    PrefixOfPrefix(s, j);
    forall i | 0 <= i < j
      ensures Running(s[..i]) < Peak(s)
    {
      PrefixOfPrefix(s, i);
    }
  }

  /** The corrected sweep starts the period at the first peak, like the program, and ends
      it at the event right after that peak, which is an end event. */
  lemma {:induction false} CorrectedMarks(s: seq<Event>)
    ensures Peak(s) == 0 ==> CorrectedSweepOf(s).startBusiest == Unset && !CorrectedSweepOf(s).atPeak
    ensures Peak(s) > 0 ==> exists j :: PeakMarked(s, j, CorrectedSweepOf(s))
  {
    if s != [] {
      var p := s[..|s| - 1];
      var e := s[|s| - 1];
      CorrectedMarks(p);
      CorrectedCounts(p);
      PeakIsMaximum(p);
      assert p[..|p|] == p;
      if IsStart(e) && Running(s) > Peak(p) {
        NewPeak(s);
        assert PeakMarked(s, |s|, CorrectedSweepOf(s));
      } else if Peak(p) > 0 {
        var j :| PeakMarked(p, j, CorrectedSweepOf(p));
        MarkedStep(s, j);
      }
    }
  }

  /** An event that does not lift the count above the peak keeps the marks of the first
      peak; the end event right after it records the end time. */
  lemma MarkedStep(s: seq<Event>, j: int)
    requires s != [] && PeakMarked(s[..|s| - 1], j, CorrectedSweepOf(s[..|s| - 1]))
    requires CorrectedSweepOf(s[..|s| - 1]).currentDrivers == Running(s[..|s| - 1])
    requires CorrectedSweepOf(s[..|s| - 1]).maxDrivers == Peak(s[..|s| - 1])
    requires !(IsStart(s[|s| - 1]) && Running(s) > Peak(s[..|s| - 1]))
    ensures PeakMarked(s, j, CorrectedSweepOf(s))
  {
    var p := s[..|s| - 1];
    assert p[..|p|] == p;
    assert Peak(s) == Peak(p);
    SamePeak(s, j);
    if j < |p| {
      assert s[j] == p[j];
    }
  }

  /** At most one prefix is the first to reach the peak. */
  lemma FirstPeakUnique(s: seq<Event>, j: int, k: int)
    requires FirstPeakAt(s, j) && FirstPeakAt(s, k)
    ensures j == k
  {
  }

  /** The corrected sweep changes only the end time: the start and the driver count are
      the program's, for every list of entries. */
  lemma CorrectedKeepsStartAndCount(entries: seq<Interval>)
    ensures CorrectedBusiest(entries).start == Busiest(entries).start
    ensures CorrectedBusiest(entries).driverCount == Busiest(entries).driverCount
  {
    var s := SortEvents(EventsOf(entries));
    CorrectedCounts(s);
    SweepCounts(s, |s|);
    CorrectedMarks(s);
    SweepEarliestPeak(s, |s|);
    if Peak(s) > 0 {
      var j :| PeakMarked(s, j, CorrectedSweepOf(s));
      var k :| FirstPeakAt(s, k) && SweepOf(s, |s|).startBusiest == At(s[k - 1].time);
      FirstPeakUnique(s, j, k);
    }
  }

  /** The first peak is followed by an end event: the count is back to 0 after all the
      events. */
  lemma PeakBeforeLastEvent(entries: seq<Interval>, j: int)
    requires FirstPeakAt(SortEvents(EventsOf(entries)), j)
    ensures j < |SortEvents(EventsOf(entries))|
  {
    var s := SortEvents(EventsOf(entries));
    Balanced(entries);
    assert s[..0] == [] && s[..|s|] == s;
  }

  /** After all the events, the count is back to 0. */
  lemma Balanced(entries: seq<Interval>)
    ensures Running(SortEvents(EventsOf(entries))) == 0
  {
    var s := SortEvents(EventsOf(entries));
    SortEventsSorted(EventsOf(entries));
    CountPermutation(s, EventsOf(entries), IsStart);
    CountPermutation(s, EventsOf(entries), IsEnd);
    EventsOfCounts(entries);
  }

  /** With a peak of two or more, the end event right after the first peak is the first
      to lift the count left after an end event to its highest, one below the peak. */
  lemma EndMarkAfterPeak(s: seq<Event>, j: int)
    requires FirstPeakAt(s, j) && j < |s| && IsEnd(s[j]) && Peak(s) >= 2
    ensures EndPeak(s) == Peak(s) - 1
    ensures FirstEndPeakAt(s, j + 1)
  {
    EndPeakIsMaximum(s);
    RunningAfterEnd(s, j + 1);
    EndsBelowPeak(s);
    EndsBeforeFirstPeak(s, j);
  }

  /** After an end event the count is below the peak. */
  lemma EndsBelowPeak(s: seq<Event>)
    ensures forall i :: 1 <= i <= |s| && IsEnd(s[i - 1]) ==> Running(s[..i]) <= Peak(s) - 1
  {
    PeakIsMaximum(s);
    forall i | 1 <= i <= |s| && IsEnd(s[i - 1])
      ensures Running(s[..i]) <= Peak(s) - 1
    {
      RunningAfterEnd(s, i);
    }
  }

  /** Before the first peak, the count after an end event is two or more below the peak. */
  lemma EndsBeforeFirstPeak(s: seq<Event>, j: int)
    requires FirstPeakAt(s, j)
    ensures forall i :: 1 <= i <= j && IsEnd(s[i - 1]) ==> Running(s[..i]) < Peak(s) - 1
  {
    forall i | 1 <= i <= j && IsEnd(s[i - 1])
      ensures Running(s[..i]) < Peak(s) - 1
    {
      RunningAfterEnd(s, i);
    }
  }

  lemma FirstEndPeakUnique(s: seq<Event>, j: int, k: int)
    requires FirstEndPeakAt(s, j) && FirstEndPeakAt(s, k)
    ensures j == k
  {
  }

  /** Outside the two-event case, with a peak of two or more, the program ends the period
      at the end event right after the first peak. */
  lemma ProgramEndAfterPeak(s: seq<Event>, j: int)
    requires FirstPeakAt(s, j) && j < |s| && IsEnd(s[j]) && Peak(s) >= 2 && |s| != 2
    ensures SweepOf(s, |s|).endBusiest == At(s[j].time)
  {
    EndMarkAfterPeak(s, j);
    SweepEndMark(s, |s|);
    var k :| FirstEndPeakAt(s, k) && SweepOf(s, |s|).endBusiest == At(s[k - 1].time);
    FirstEndPeakUnique(s, k, j + 1);
  }

  /** The program's period is the corrected one whenever the peak is two drivers or more:
      the finding only concerns a busiest period of one driver. */
  lemma CorrectedAgreesFromTwoDrivers(entries: seq<Interval>)
    requires Busiest(entries).driverCount >= 2
    ensures CorrectedBusiest(entries) == Busiest(entries)
  {
    var s := SortEvents(EventsOf(entries));
    SortEventsSorted(EventsOf(entries));
    assert |s| == |multiset(s)| == |EventsOf(entries)|;
    DriverCountBounds(entries);
    CorrectedKeepsStartAndCount(entries);
    SweepCounts(s, |s|);
    CorrectedCounts(s);
    CorrectedMarks(s);
    var j :| PeakMarked(s, j, CorrectedSweepOf(s));
    PeakBeforeLastEvent(entries, j);
    ProgramEndAfterPeak(s, j);
  }

  /** The corrected period: for breaks that end after they start, both times are set,
      every minute from the start to the end (both included) has the reported number of
      drivers on break, and every earlier minute has fewer. */
  lemma CorrectedPeriodCovered(entries: seq<Interval>)
    requires Forward(entries) && entries != []
    ensures var p := CorrectedBusiest(entries);
      p.start.At? && p.end.At? && p.start.minute <= p.end.minute && p.driverCount >= 1 &&
      (forall t :: p.start.minute <= t <= p.end.minute ==> Covering(entries, t) == p.driverCount) &&
      (forall t :: 0 <= t < p.start.minute ==> Covering(entries, t) < p.driverCount)
  {
    var s := SortEvents(EventsOf(entries));
    SortEventsSorted(EventsOf(entries));
    NonEmptyHasDriver(entries);
    CorrectedKeepsStartAndCount(entries);
    CorrectedCounts(s);
    SweepCounts(s, |s|);
    CorrectedMarks(s);
    var j :| PeakMarked(s, j, CorrectedSweepOf(s));
    PeakBeforeLastEvent(entries, j);
    assert NoLater(s[j - 1], s[j]);
    forall t | s[j - 1].time <= t <= s[j].time
      ensures Covering(entries, t) == Peak(s)
    {
      PeakPrefixAt(s, j, t);
      CoverageAsRunning(entries, t);
    }
    forall t | 0 <= t < s[j - 1].time
      ensures Covering(entries, t) < Peak(s)
    {
      var k := PrefixAtMinute(s, t);
      CoverageAsRunning(entries, t);
      BeforePeak(s, j, t, k);
    }
  }

  /** Between the first peak's start event and the end event after it, the running count
      of the peak is "starts by `t` minus ends before `t`". */
  lemma PeakPrefixAt(s: seq<Event>, j: nat, t: int)
    requires Sorted(s) && 1 <= j < |s| && IsStart(s[j - 1]) && IsEnd(s[j])
    requires s[j - 1].time <= t <= s[j].time
    ensures Running(s[..j]) == Count(s, StartsBy(t)) - Count(s, EndsBefore(t))
  {
    KeysAround(s, j);
    KeysBelowEnds(s[..j], t);
    KeysAbove(s[j..], t);
    CountSplit(s, j, StartsBy(t));
    CountSplit(s, j, EndsBefore(t));
  }

  /** A prefix of the events before minute `t`, with `t` before the peak's start event,
      counts fewer than the peak. */
  lemma BeforePeak(s: seq<Event>, j: int, t: int, k: nat)
    requires FirstPeakAt(s, j) && t < s[j - 1].time && k <= |s|
    requires forall i :: 0 <= i < k ==> SortKey(s[i]) <= 2 * t
    ensures Running(s[..k]) < Peak(s)
  {
  }
}
